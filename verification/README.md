# Verified models of the h2o server

This project models, in Dafny, the parts of the h2o HTTP server whose correctness rests on
state, interleavings or bit-level coding, and proves what those parts promise. The command
`dafny verify dfyconfig.toml` (Dafny 4.11) checks all proofs.

| files | part of the server |
|---|---|
| `Basics`, `Options` | octets, bits, decimal numbers and optional values, shared by the others |
| `HuffmanCode`, `HuffmanTable`, `HuffmanNodes`, `HuffmanStandard` | the script that turns the HPACK Huffman code into a table of nibble transitions (`misc/mkhufftbl.py`): the tree and its bit-by-bit meaning, the transitions as functions, the script itself on heap nodes, and the shape of the standard's code |
| `Hpack`, `HpackEncode` | the table-driven decoder and the encoder with its 64-bit accumulator (`lib/http2/hpack.c`) |
| `Tickets`, `TicketRuns` | rotation of TLS session tickets (`src/ssl.c`): one call from any list, and every run of the internal updater |
| `QuicKeys` | the generation counter through which worker threads follow the ticket list of the updater or a store, and connection ids encrypted under tickets |
| `Http1`, `Http1Runs`, `Http1Conn` | an HTTP/1 connection (`lib/http1.c`): functions and invariant, theorems over all runs, and the same operations as methods that update a connection object |
| `Chunked`, `ServerTiming` | chunked responses and the server-timing elements of their trailer (`lib/http1.c`, `lib/core/util.c`), against a parser of section 7.1 of RFC 9112 |
| `Admission` | the connection counters and listener wake-ups of all threads (`src/main.c`) |
| `Neverbleed` | the pipeline of asynchronous private-key operations (`src/main.c`) |
| `DictChains`, `Dict`, `DictIterator` | the chained hash table of `deps/hiredis/dict.c`: buckets as sequences, the linked entries on the heap, iteration |
| `Golomb` | the Golomb-coded set of `deps/golombset/golombset.h` |
| `Resp` | printing a Redis command and walking over its arguments (`deps/hiredis`) |
| `PubSub`, `PubSubLeaving`, `AsyncContext` | subscription bookkeeping of the asynchronous Redis client: state machine with its theorems, when the client leaves subscribed context, and the operations as methods |

Concurrency is modelled as a state machine whose steps are the atomic actions of the code, and
theorems quantify over every sequence of steps. Code that updates objects in place is modelled
by classes whose methods are proved equal to a function of the old state; the theorems are
about that function. Random draws, clocks, the HTTP head parser, ciphers, the hash function and
the answers of other processes are parameters or events.

Findings, where the code does not do what its documentation or a natural reading says:

- The Huffman decoder masks the character classes it has seen with the two "invalid" bits, so
  the hard error for upper-case names in a Huffman-coded name is never raised; such a name gets
  the soft error (`Hpack.UpperCaseOnlySoft`, `Hpack.ValidateMeaning`).
- The comment in `on_accept` says that `max_connections` can be exceeded by one connection per
  thread. The counter can (`Admission.CounterExceeds`); the number of connections cannot
  (`Admission.AdmissionSafe`).
- Rotation of tickets leaves no gap exactly when the lifetime exceeds the latest moment of the
  call that makes the next ticket by a minute (`TicketRuns.NoGapIff`). If calls may be 119
  seconds apart or more, that is when three quarters of the lifetime are at least the longest
  interval plus 60 seconds (`TicketRuns.BoundFromTwoMinutes`); below, less is enough
  (`TicketRuns.WeakerBound`).
- Tickets from a file, unlike those of the other stores, are not cleared of colliding names: a
  connection id can then be taken to a wrong key (`QuicKeys.FileCollides`; the exact condition is
  `QuicKeys.CidReachesItsKeyIff`). A file with an empty list of tickets fails an assertion and
  ends the process; apart from a list that uses all 256 octets nothing else does
  (`QuicKeys.AbortsIffFatal`).
- The table generator's assertion holds exactly for codes without codewords of fewer than four
  bits (`HuffmanTable.AssertionHoldsIffLongCodewords`).
- The Redis client can stay in subscribed context for ever with nothing subscribed, in two
  ways: the count of expected confirmations is carried from one channel of a SUBSCRIBE to the
  next (`PubSub.StaysSubscribed`, `PubSubLeaving.PipelinedForEver`), and an unsubscription that
  was counted as one to ignore meets its channel subscribed again
  (`PubSubLeaving.StaysSubscribedForOneTopic`). When all is quiet the client has left if and
  only if every SUBSCRIBE avoided both, which its caller can tell (`PubSubLeaving.LeavesIffOrderly`).
- Walking over a printed Redis command reports a wrong length exactly for arguments of 2^31
  octets or more (`Resp.CallAt`).
- The Golomb encoder and decoder invert each other for every list of 64-bit keys, sorted or not,
  because gaps wrap around in both (`Golomb.SetInverts`).

## Model

| member | source | states |
|---|---|---|
| `HuffmanCode.InsertAt` | h2o/misc/mkhufftbl.py:356-369 | Adding a codeword creates exactly the nodes on its path, puts the symbol at its end and changes no other symbol |
| `HuffmanCode.BuildAt` | h2o/misc/mkhufftbl.py:356-372 | In the tree of a prefix-free code the nodes are the prefixes of codewords, and the symbols sit exactly at the codewords |
| `HuffmanCode.BuildFull` | h2o/misc/mkhufftbl.py:356-381 | The tree of a complete prefix-free code has no missing child and no symbol above another |
| `HuffmanCode.BuildCount` | h2o/misc/mkhufftbl.py:356-372 | The tree holds as many symbols as the code has codewords |
| `HuffmanCode.FullCount` | h2o/misc/mkhufftbl.py:374-381 | A full tree has one inner node fewer than leaves |
| `HuffmanCode.StatesFitOctet` | h2o/misc/mkhufftbl.py:374-384 | 257 leaves give 256 inner nodes, so the state fits the octet it is stored in |
| `HuffmanCode.IdPath` | h2o/misc/mkhufftbl.py:345-354 | Every number below the count belongs to an inner node: numbering is onto |
| `HuffmanCode.PathId` | h2o/misc/mkhufftbl.py:374-381 | Numbering of inner nodes in preorder is one-to-one |
| `HuffmanCode.DecodeSound` | h2o/misc/mkhufftbl.py:386-407 | Whatever bit-by-bit decoding has emitted, coded again, plus the bits it stands at, is its input |
| `HuffmanCode.DecodeEncode` | h2o/misc/mkhufftbl.py:386-407 | Bit-by-bit decoding inverts encoding for every symbol string without EOS |
| `HuffmanCode.DecodeMeans` | h2o/misc/mkhufftbl.py:374-381 | A bit string is codewords other than EOS plus at most 7 one-bits (section 5.2 of RFC 7541) if and only if the bit walk ends at a marked node with those symbols |
| `HuffmanCode.MeaningUnique` | h2o/misc/mkhufftbl.py:386-407 | A coded string has at most one meaning |
| `HuffmanTable.LongCodewordsOneSymbol` | h2o/misc/mkhufftbl.py:397-401 | Without codewords under four bits no nibble completes two symbols, from any node |
| `HuffmanTable.ShortCodewordTwoSymbols` | h2o/misc/mkhufftbl.py:397-401 | With a shorter codeword there is a node and a nibble that completes two |
| `HuffmanTable.AssertionHoldsIffLongCodewords` | h2o/misc/mkhufftbl.py:386-417 | The generator's assertion never fails if and only if no codeword is shorter than four bits |
| `HuffmanTable.WalkRefines` | h2o/misc/mkhufftbl.py:386-407 | The walk with restart at the root agrees with bit-by-bit decoding, including failure on EOS |
| `HuffmanTable.WalkInTree` | h2o/misc/mkhufftbl.py:386-407 | A walk ends in the tree, with a symbol of the tree other than EOS, or fails |
| `HuffmanTable.WalksAt` | h2o/misc/mkhufftbl.py:386-407 | Transition k of a node is the walk over the bits of k, most significant first |
| `HuffmanTable.PreorderIsTable` | h2o/misc/mkhufftbl.py:426-458 | Printing in preorder puts the row of state i at index i |
| `HuffmanNodes.Node.Add` | h2o/misc/mkhufftbl.py:356-369 | Adding to heap nodes in place is insertion into the tree they form |
| `HuffmanNodes.AddAll` | h2o/misc/mkhufftbl.py:371-372 | All codewords added in order give the tree of the code |
| `HuffmanNodes.Node.SetNodeId` | h2o/misc/mkhufftbl.py:374-384 | Every inner node gets its preorder number, and the mark exactly if legal padding can end at it; leaves get neither |
| `HuffmanNodes.Node.NumberedAt` | h2o/misc/mkhufftbl.py:374-381 | The number and the mark found at a position are those of the position |
| `HuffmanNodes.Traverse` | h2o/misc/mkhufftbl.py:386-407 | Traversal appends exactly the walks of all bit strings of the remaining length, in order, and its assertion holds |
| `HuffmanNodes.FillRow` | h2o/misc/mkhufftbl.py:409-414 | A node's list becomes the walks from its position |
| `HuffmanNodes.BuildTransitions` | h2o/misc/mkhufftbl.py:409-417 | All nodes below hold the transitions of their positions |
| `HuffmanNodes.PrintedIsEntry` | h2o/misc/mkhufftbl.py:431-455 | What is printed for a pair of node and symbol is the table entry of the walk |
| `HuffmanNodes.RowsArePrinted` | h2o/misc/mkhufftbl.py:426-461 | The printed rows are the rows of the subtree in preorder |
| `HuffmanNodes.Generate` | h2o/misc/mkhufftbl.py:356-461 | For every complete prefix-free code of 257 codewords of at least four bits, the script prints the table that the theorems are about, with 256 rows |
| `HuffmanStandard.WordsApart` | h2o/misc/mkhufftbl.py:356-372 | For every tree given by its number of inner nodes per depth: no word of it begins another |
| `HuffmanStandard.MeetsWord` | h2o/misc/mkhufftbl.py:356-372 | Every bit string begins with one of its words or is the beginning of one |
| `HuffmanStandard.StandardCode` | h2o/misc/mkhufftbl.py:51-307 | 257 distinct words of the shape of Appendix B of RFC 7541, assigned to the octets in any way with EOS on thirty ones, are a code as the other theorems require it |
| `HuffmanStandard.StandardCodeExists` | h2o/misc/mkhufftbl.py:51-307 | There is such a code |
| `Hpack.EntryFlags` | h2o/misc/mkhufftbl.py:431-455 | The flags of an entry say whether the walk failed, emitted, may end here, and which character class it emitted |
| `Hpack.NibbleTracks` | h2o/lib/http2/hpack.c:85-99 | One lookup follows four steps of bit-by-bit decoding |
| `Hpack.RunTable` | h2o/lib/http2/hpack.c:116-131 | The loop of two lookups per octet follows the bit decoder up to the first failure, and writes at most two octets per octet read |
| `Hpack.DecodeHuffman` | h2o/lib/http2/hpack.c:116-156 | With the table of any such code the decoder rejects exactly the octet strings without meaning, and returns the meaning of the others with its validation, within the room of twice the input that is allocated for it |
| `Hpack.SeenIsInvalidOnly` | h2o/lib/http2/hpack.c:85-99 | The classes collected say whether some character is invalid in a name or a value, and never that one is upper-case |
| `Hpack.ValidateMeaning` | h2o/lib/http2/hpack.c:133-156 | Which soft error the decoder reports, in terms of the decoded characters |
| `Hpack.UpperCaseOnlySoft` | h2o/lib/http2/hpack.c:139-146 | A name for which the hard upper-case error does not happen |
| `HpackEncode.Flush` | h2o/lib/http2/hpack.c:755-763 | Moving octets out of the accumulator keeps output and pending bits together |
| `HpackEncode.AddSymbol` | h2o/lib/http2/hpack.c:751-763 | A codeword or-ed into the accumulator is appended to the coded bits, or the output is full and the coded form too long |
| `HpackEncode.Finish` | h2o/lib/http2/hpack.c:765-772 | The last octet is padded with ones |
| `HpackEncode.EncodeHuffman` | h2o/lib/http2/hpack.c:745-775 | The encoder succeeds exactly when the padded coded form is shorter than its input, and then writes it |
| `HpackEncode.RoundTrip` | h2o/lib/http2/hpack.c:745-775 | What the encoder produces decodes to its input |
| `Tickets.FindTicket` | h2o/src/ssl.c:257-272 | The search returns the first active ticket if it has not expired, and nothing if it has or if none is active |
| `Tickets.Expire` | h2o/src/ssl.c:398-406 | Exactly a suffix goes, all of it expired, and the last one left is not |
| `Tickets.DecollideSpec` | h2o/src/ssl.c:411-428 | Of each first octet exactly the last holder survives; all names survive and are distinct |
| `Tickets.DecollideOrder` | h2o/src/ssl.c:411-428 | The survivors keep their order: they stand at increasing places of the original list, each the last of its name |
| `Tickets.DecollideIdle` | h2o/src/ssl.c:411-428 | The list is left alone exactly when its names are distinct |
| `Tickets.FreshName` | h2o/src/ssl.c:436-445 | The search for a fresh first octet ends with one not in use |
| `Tickets.FreeOctet` | h2o/src/ssl.c:436-445 | Fewer than 256 used octets leave one free, so the search ends |
| `Tickets.Store.RemoveExpired` | h2o/src/ssl.c:398-406 | The loop removes the expired suffix in place, and tells whether it did |
| `Tickets.Store.RemoveCollisions` | h2o/src/ssl.c:411-428 | The nested loops leave the last holder of each first octet, in the original order |
| `Tickets.Store.AvoidCollision` | h2o/src/ssl.c:436-445 | The loop finds the first free octet from the drawn one upwards, wrapping |
| `Tickets.Store.UpdateTickets` | h2o/src/ssl.c:394-454 | One call: fatal or the updated list; it reports a change exactly if something expired or a ticket was added, and else only colliding entries can be gone |
| `Tickets.AbortsIff` | h2o/src/ssl.c:411-428 | The call aborts the process exactly when the tickets that survive expiry use all 256 octets |
| `Tickets.EncryptionAvailable` | h2o/src/ssl.c:430-451 | After any call from any list a ticket can encrypt now, except with a zero lifetime and nothing valid left |
| `Tickets.UpdatedDistinct` | h2o/src/ssl.c:394-454 | After any call all first octets are distinct |
| `TicketRuns.RunInvariant` | h2o/src/ssl.c:479-491 | In every run of calls at least 60 seconds apart no call aborts, and the list is a rotation: spaced, sorted, distinct, alive |
| `TicketRuns.RunSafe` | h2o/src/ssl.c:394-491 | Every call leaves the list strictly sorted newest first, with distinct octets, nothing expired and at most four entries |
| `TicketRuns.NothingCollides` | h2o/src/ssl.c:411-428 | In such a run collision removal never removes anything |
| `TicketRuns.NoGap` | h2o/src/ssl.c:257-272 | At every second from the first call on some ticket can encrypt, if the lifetime meets the bound |
| `TicketRuns.LatestSpec` | h2o/src/ssl.c:479-491 | The bound's latest moment is one that calls 60 seconds to the longest interval apart can reach, and none later can be reached in time |
| `TicketRuns.GapBelowBound` | h2o/src/ssl.c:430-451 | Below the bound some run has a second without one |
| `TicketRuns.NoGapIff` | h2o/src/ssl.c:394-491 | For every lifetime and every longest interval between calls the bound is exact |
| `TicketRuns.BoundFromTwoMinutes` | h2o/src/ssl.c:430-451 | For longest intervals of 119 seconds and more the bound is three quarters of the lifetime against the interval and a minute |
| `TicketRuns.WeakerBound` | h2o/src/ssl.c:430-451 | For shorter ones it can be met when that is not |
| `QuicKeys.StepKeepsInv` | h2o/src/ssl.c:456-467 | Every step of updater and workers keeps the relation of counters, lists and cached keys |
| `QuicKeys.ReturnedKeysAreRecent` | h2o/src/ssl.c:1260-1286 | In every interleaving of file, memcached, Redis and internal updates with the workers, the keys returned are those of the current list, or of the one before while the updater stands before its bump; never empty |
| `QuicKeys.UpdaterAssertionHolds` | h2o/src/ssl.c:456-467 | In every interleaving the list that the internal updater registers is not empty, as the code asserts, and has distinct names; the lifetime is at least a second |
| `QuicKeys.RebuildFindsTickets` | h2o/src/ssl.c:1264-1283 | In every interleaving a worker that rebuilds finds a list that is not empty, as the code asserts |
| `QuicKeys.StepAborts` | h2o/src/ssl.c:456-467 | From every state of the invariant, a step ends the process exactly if it loads a file without tickets or meets a list that uses all 256 octets |
| `QuicKeys.AbortsIffFatal` | h2o/src/ssl.c:456-467 | In every interleaving the process ends itself if and only if such a step happens |
| `QuicKeys.QuietWorkerCatchesUp` | h2o/src/ssl.c:1264-1283 | Left alone a worker returns the current keys after one rebuild, and nothing else changes |
| `QuicKeys.FindQuicKeyset` | h2o/src/ssl.c:1288-1297 | The loop returns the first keyset of that name |
| `QuicKeys.CidRoundTrip` | h2o/src/ssl.c:1299-1330 | For any two lists: a cid made under the first ticket of one decrypts under the other if it holds the ticket and its names are distinct, and not at all if it lacks the name |
| `QuicKeys.CidReachesItsKeyIff` | h2o/src/ssl.c:1260-1330 | In every interleaving, whatever is registered: a cid that a worker makes reaches its own key at another worker, then and later, if and only if that key is there with no different one of its name in front; it then decrypts |
| `QuicKeys.FileCollides` | h2o/src/ssl.c:824-851 | For any two tickets of one name and different secrets, a run in which a cid of the older reaches the key of the other, though its own is there |
| `QuicKeys.ListsDistinctIff` | h2o/src/ssl.c:394-467 | In every interleaving all lists ever in use have distinct names if and only if the files loaded have: those of memcached, Redis and the internal updater always do |
| `QuicKeys.CidsDecryptEverywhere` | h2o/src/ssl.c:1260-1330 | In every interleaving in which no loaded file has colliding names, a cid that a worker makes decrypts, then and later, at every worker whose returned keys hold the ticket |
| `Http1.ErrorOk` | h2o/lib/http1.c:206-223 | Giving up on a body keeps the invariant: an error response, or the connection closes when the response is over |
| `Http1.CleanupOk` | h2o/lib/http1.c:150-173 | Cleanup of a whole exchange keeps the invariant, parsing pipelined octets if there are any |
| `Http1.IncomingOk` | h2o/lib/http1.c:626-764 | Parsing a head from whatever has arrived keeps the invariant, on every outcome of the parser |
| `Http1.EntityOk` | h2o/lib/http1.c:235-324 | Taking a body fragment keeps the invariant, with every callback and every answer of the handler |
| `Http1.StepOk` | h2o/lib/http1.c:110-902 | Every event keeps the invariant; both assertions of `cleanup_connection` are preconditions that hold whenever it is reached |
| `Http1Runs.EveryOctetAccounted` | h2o/lib/http1.c:235-324 | In every run the octets received are the finished exchanges, the current one and the buffer; finished bodies have their declared length, were delivered in order, and ended once |
| `Http1Runs.SegmentationUnique` | h2o/lib/http1.c:626-764 | A stream of octets can be cut into exchanges in one way only |
| `Http1Runs.SplitIndependent` | h2o/lib/http1.c:626-764 | Two connections that received the same octets in any splits, one of them maybe more, served the same requests as far as both got |
| `Http1Runs.SameRequests` | h2o/lib/http1.c:626-764 | Two connections that received the same octets and have finished all whole requests among them served exactly the same requests and are left with the same octets |
| `Http1Runs.WaitingHasNothingWhole` | h2o/lib/http1.c:235-324 | In every run a connection that waits for more of a body, or has no octet left, has finished all whole requests |
| `Http1Runs.CleanupAtTheLater` | h2o/lib/http1.c:150-173 | In every run a request is cleaned up once, at the later of response sent and body read; none with both behind it waits; and the connection closes exactly in the cases of the next row |
| `Http1Runs.ClosesIff` | h2o/lib/http1.c:150-223 | A connection closes if and only if it is dropped, gives a body up after the response, gets a bare line end for a head, or ends a request that is not persistent or is followed by such a line end |
| `Http1Runs.StepCleans` | h2o/lib/http1.c:850-902 | From every state of the invariant, each event ends at most one request, and only as the later half of it, and closes the connection exactly in those cases |
| `Http1Runs.HandshakeAlternates` | h2o/lib/http1.c:571-613 | In every run the trace of a request strictly alternates between data given to the handler and the handler asking for more; data is read exactly when it is not the handler's turn, into an empty buffer; the assertion of `proceed_request` holds |
| `Http1Runs.StepInTurn` | h2o/lib/http1.c:235-266 | Every event extends such a trace to such a trace |
| `Http1Runs.ReadFeedsHandler` | h2o/lib/http1.c:235-266 | In every run a read for a streaming handler gives it exactly the octets that belong to the body; afterwards it is the handler's turn, or the body is over and with it the request if the response is, or the handler refused and the body is given up |
| `Http1Runs.CleanupMeans` | h2o/lib/http1.c:150-173 | Cleanup closes exactly if the request is not persistent or a bare line end follows; else the request is recorded as finished and the next has the next number; no octet received is forgotten |
| `Http1Conn.Connection.CleanupConnection` | h2o/lib/http1.c:150-173 | In place, the same; and the whole new state is that of the model |
| `Http1Conn.FragmentMeans` | h2o/lib/http1.c:235-324 | A fragment moves octets from the input to the body, losing none and taking none twice; the body gets what it declared exactly when that has arrived, and otherwise all there is |
| `Http1Conn.Connection.EntityReadSendError` | h2o/lib/http1.c:206-223 | In place: afterwards nothing is read and the connection will not persist; it is closed exactly if the response is over; an error response is in flight if none had begun |
| `Http1Conn.Connection.OneFragment` | h2o/lib/http1.c:235-324 | In place: octets of body and input together are kept, the body never exceeds its declared length, and the result tells that it is over with nobody waiting for more |
| `Http1Conn.Connection.OnRead` | h2o/lib/http1.c:781-795 | A read event is the step of the model and keeps the invariant |
| `Http1Conn.Connection.OnSendComplete` | h2o/lib/http1.c:850-902 | The end of the response is the step of the model and keeps the invariant |
| `Http1Conn.Connection.ProceedRequest` | h2o/lib/http1.c:571-584 | The handler's request for more is the step of the model, and its assertion holds |
| `Http1Conn.Connection.FinalOstreamSend` | h2o/lib/http1.c:1032-1098 | Sending is the step of the model and keeps the invariant |
| `Chunked.HexRoundTrip` | h2o/lib/http1.c:1012-1016 | A chunk size printed in hexadecimal reads back as itself |
| `Chunked.HexLength` | h2o/lib/http1.c:1012-1016 | k digits suffice exactly below 16^k |
| `Chunked.HeaderFitsBuffer` | h2o/lib/http1.c:998-1004 | The 19-octet buffer holds the header exactly of sizes below 2^64 |
| `Chunked.EncodeChunked` | h2o/lib/http1.c:1006-1030 | Header and end of a chunk for every state, size and trailer setting |
| `Chunked.SendBody` | h2o/lib/http1.c:1080-1098 | The loop over buffers sends their concatenation as one chunk |
| `ServerTiming.StringifyDuration` | h2o/lib/core/util.c:792-811 | The loop with its early end prints the duration of which the next rows tell |
| `ServerTiming.DurationReads` | h2o/lib/core/util.c:792-811 | A duration that fits prints as its milliseconds and digits worth exactly the microseconds left, the last not zero |
| `ServerTiming.DurationPlain` | h2o/lib/core/util.c:790-811 | Every duration, of either sign, is plain text of at most 19 octets |
| `ServerTiming.ElementsPlain` | h2o/lib/core/util.c:875-915 | With any flags and time stamps the elements are plain text that fits the room reserved for them |
| `ServerTiming.ElementsAtEnd` | h2o/lib/http1.c:862-888 | When a response is sent to its end there is an element: `on_send_complete` has just taken the end, and the start at the latest with it |
| `Chunked.ParseAll` | h2o/lib/http1.c:1006-1030 | Sends in progress parse to their data, whatever follows |
| `Chunked.TrailerHasElement` | h2o/lib/handler/server_timing.c:33-46 | A trailer that was announced has an element, on one line, when the response ends at a time whose seconds are not zero |
| `Chunked.FinishedParses` | h2o/lib/http1.c:862-888 | Every response sent to its end, at a time whose seconds are not zero, parses to exactly its data and leaves what follows, with and without the trailer |
| `Chunked.ErrorNeverCompletes` | h2o/lib/http1.c:1025-1029 | A response that ends in an error, or goes on, never parses as complete |
| `Admission.OwnStep` | h2o/src/main.c:2944-2970 | Every step changes the counters by what its own thread holds, and passes a check only below the limit |
| `Admission.CountingStep` | h2o/src/main.c:4228-4286 | Every step of every thread keeps the counters equal to connections plus held attempts, within the limits |
| `Admission.AdmissionSafe` | h2o/src/main.c:4322-4417 | In every interleaving, through all exits of `on_http3_accept`, the counters are exact, connections never exceed either limit, and the counter exceeds its limit by at most one per thread |
| `Admission.CounterExceeds` | h2o/src/main.c:4228-4286 | For every limit and number of threads there is a run in which it does, by one for each thread |
| `Admission.BalancedStep` | h2o/src/main.c:4322-4417 | Every step keeps the tally of increments and decrements of every thread's attempt in line with where the thread is |
| `Admission.AttemptsPayBack` | h2o/src/main.c:4399-4417 | In every interleaving an attempt that is over has decremented each counter exactly as often as it incremented it, also when the connection was destroyed inside the accept, or has become a connection and decremented nothing |
| `Admission.AwakeStep` | h2o/src/main.c:4419-4434 | Every step keeps: a stopped thread with room is notified, about to check, or about to be told |
| `Admission.NoLostWakeUp` | h2o/src/main.c:2937-2952 | In every interleaving a waiting thread with stopped listeners and room has a message, or a notifier on its way |
| `Neverbleed.StepKeepsInv` | h2o/src/main.c:677-749 | Every event keeps the invariant of queues, flags and expected responses |
| `Neverbleed.PipelineSafe` | h2o/src/main.c:734-804 | In every run, with callbacks that submit from inside the reading loop, at most 200 await a response and every response goes to its transaction; out of the loop queued requests wait only for that limit or a write, and reading is on exactly while something is awaited |
| `Neverbleed.Conserved` | h2o/src/main.c:833-915 | No transaction is lost or duplicated in any run |
| `Neverbleed.AsyncNb.SubmitWritePending` | h2o/src/main.c:734-749 | In place: afterwards a write is in progress exactly if one was, or a request is queued and there is room |
| `Neverbleed.AsyncNb.OnWriteComplete` | h2o/src/main.c:713-732 | In place: moves the written transaction to the readers, or drops a responseless one, and goes on |
| `Neverbleed.AsyncNb.ReadOne` | h2o/src/main.c:771-779 | In place: one response goes to the transaction at the front, and the invariant stays |
| `Neverbleed.AsyncNb.OnReadComplete` | h2o/src/main.c:970-996 | In place: a callback that submits while responses are being read queues its transactions and disturbs nothing else |
| `Neverbleed.AsyncNb.OnReadReady` | h2o/src/main.c:771-804 | In place: reads all responses at hand, with callbacks that may submit in between; each goes to its transaction in order, and no request is left behind |
| `DictChains.Mask` | h2o/deps/hiredis/dict.c:325-342 | Masking a hash with the size less one is its remainder, for every power of two |
| `DictChains.RehashHolds` | h2o/deps/hiredis/dict.c:108-132 | Moving all entries to any other size keeps exactly the keys, each once and in its bucket, and their number |
| `DictChains.RehashFrom` | h2o/deps/hiredis/dict.c:112-130 | Nothing gets into the new buckets but the old entries |
| `DictChains.RehashTo` | h2o/deps/hiredis/dict.c:112-130 | No entry is lost |
| `DictChains.RehashDistinct` | h2o/deps/hiredis/dict.c:112-130 | No key is duplicated |
| `DictChains.AddHolds` | h2o/deps/hiredis/dict.c:141-163 | Putting a new entry in front of its bucket adds its key and nothing else |
| `DictChains.RemoveHolds` | h2o/deps/hiredis/dict.c:194-222 | Taking an entry out removes its key and nothing else |
| `Dict.NextPower` | h2o/deps/hiredis/dict.c:311-320 | The least power of two from 4 up that is not smaller, and LONG_MAX from LONG_MAX on |
| `Dict.NextPowerOverflows` | h2o/deps/hiredis/alloc.h:62-68 | The array for the next power of two overflows the allocator's check exactly for sizes above 2^60 |
| `Dict.MoveAll` | h2o/deps/hiredis/dict.c:111-133 | The loops relink every entry in place into the new array, and the count they keep reaches zero |
| `Dict.Dict.Expand` | h2o/deps/hiredis/dict.c:92-138 | Fails exactly when the size is below the number of entries or the array would overflow the allocator's size check, and then changes nothing; otherwise the size is the next power of two and the map is unchanged |
| `Dict.Dict.ExpandIfNeeded` | h2o/deps/hiredis/dict.c:300-308 | Succeeds exactly if there was room or the table can be doubled; afterwards there is room, and the map is unchanged |
| `Dict.Dict.KeyIndex` | h2o/deps/hiredis/dict.c:325-342 | -1 exactly for a key of the map, and else its bucket, with room |
| `Dict.Dict.Add` | h2o/deps/hiredis/dict.c:141-163 | Adds the pair to the map if and only if the key is new |
| `Dict.Dict.Replace` | h2o/deps/hiredis/dict.c:169-191 | Sets the key in the map, and tells whether it was new |
| `Dict.Dict.Delete` | h2o/deps/hiredis/dict.c:194-222 | Removes the key from the map, and tells whether it was there; no other entry moves |
| `Dict.Dict.Find` | h2o/deps/hiredis/dict.c:255-268 | The entry of the key with its value, or null exactly when the map lacks it |
| `DictIterator.Iterator.Next` | h2o/deps/hiredis/dict.c:277-295 | Returns the first entry not visited and leaves the others, or null exactly at the end |
| `DictIterator.DeleteKeeps` | h2o/deps/hiredis/dict.c:288-291 | Deleting the entry just returned leaves what is to be visited |
| `DictIterator.VisitsEachOnce` | h2o/deps/hiredis/dict.c:277-295 | The order of the buckets has every key of the map exactly once, and no other |
| `DictIterator.Sweep` | h2o/deps/hiredis/dict.c:270-295 | A whole iteration that deletes any of the entries it is given visits each entry once, and the map keeps exactly the others |
| `Golomb.CostIsLength` | h2o/deps/golombset/golombset.h:89-100 | The bits of a list number the sum of (gap >> fixed_bits) + 1 + fixed_bits |
| `Golomb.ValueInverts` | h2o/deps/golombset/golombset.h:89-121 | Reading a value inverts writing it, whatever follows |
| `Golomb.PaddingIsEmpty` | h2o/deps/golombset/golombset.h:102-113 | Zeros alone make no value |
| `Golomb.SetInverts` | h2o/deps/golombset/golombset.h:123-160 | Reading the bits of any key list with any zeros behind it gives that list, or the error exactly when the room is too small |
| `Golomb.GapsOfIncreasing` | h2o/deps/golombset/golombset.h:129-133 | In an increasing list the gaps are the plain differences |
| `Golomb.Encoder.EncodeBit` | h2o/deps/golombset/golombset.h:39-51 | Appends a bit to the buffer, and fails exactly when it is full |
| `Golomb.Encoder.EncodeBits` | h2o/deps/golombset/golombset.h:53-63 | Appends the low bits of a value, and fails exactly when they do not fit |
| `Golomb.Encoder.EncodeValue` | h2o/deps/golombset/golombset.h:89-100 | Appends quotient and remainder, and fails exactly when they do not fit |
| `Golomb.EncodeSet` | h2o/deps/golombset/golombset.h:123-138 | Succeeds exactly when the sum fits the buffer; the size is the sum in octets, rounded up; the octets hold the bits and zeros |
| `Golomb.Decoder.DecodeBit` | h2o/deps/golombset/golombset.h:65-73 | Takes the next bit, and fails exactly at the end |
| `Golomb.Decoder.DecodeBits` | h2o/deps/golombset/golombset.h:75-87 | Reads a binary number as the parser does |
| `Golomb.Decoder.DecodeValue` | h2o/deps/golombset/golombset.h:102-121 | Reads a value as the parser does, in 64 bits |
| `Golomb.DecodeSet` | h2o/deps/golombset/golombset.h:140-160 | Stores exactly the keys of the octets, or fails exactly when there are more than fit |
| `Golomb.StoreAndLoad` | h2o/deps/golombset/golombset.h:123-160 | Encoding any keys into a buffer and decoding what was stored gives the keys back, exactly when the sum fits the buffer and the keys fit the room |
| `Resp.CountDigits` | h2o/deps/hiredis/hiredis.c:299-309 | The number of digits that printf writes |
| `Resp.Bulklen` | h2o/deps/hiredis/hiredis.c:312-314 | The length of a printed argument |
| `Resp.FormatCommandArgv` | h2o/deps/hiredis/hiredis.c:642-678 | The length computed first is the number of octets written, all writes are in bounds, and the buffer holds the command and a NUL |
| `Resp.BulkRead` | h2o/deps/hiredis/async.c:817-829 | A call at a printed argument finds its octets whatever they are |
| `Resp.HeaderSkipped` | h2o/deps/hiredis/async.c:817-822 | A call at the start of a command finds what a call at its first argument finds |
| `Resp.CallAt` | h2o/deps/hiredis/async.c:817-829 | At argument j the octets are found; the length is right exactly below 2^31, and the next call is then at argument j + 1 |
| `Resp.CallAtEnd` | h2o/deps/hiredis/async.c:819-822 | Behind the last argument there is no more |
| `Resp.Walk` | h2o/deps/hiredis/async.c:857-889 | Calling until there is no more gives exactly the arguments printed |
| `PubSub.SubscribeOk` | h2o/deps/hiredis/async.c:865-889 | A SUBSCRIBE of any topics keeps the invariant |
| `PubSub.UnsubscribeOk` | h2o/deps/hiredis/async.c:890-921 | An UNSUBSCRIBE of any topics keeps the invariant |
| `PubSub.SubscribedOk` | h2o/deps/hiredis/async.c:504-507 | When a subscription is confirmed its topic is there, and its callback runs |
| `PubSub.UnsubscribedOk` | h2o/deps/hiredis/async.c:509-534 | The subscribed flag is unset only when the server has no subscription and no confirmation to send |
| `PubSub.RunOk` | h2o/deps/hiredis/async.c:470-540 | In every run no topic expects fewer confirmations than are to come, a missing topic expects none, and callbacks queue in the order of their answers |
| `PubSub.AnswersFindTheirCallbacks` | h2o/deps/hiredis/async.c:570-660 | After every run both assertions hold, and every answer meets the callback of its own command or topic |
| `PubSub.MessagesFindTheirCallbacks` | h2o/deps/hiredis/async.c:492-502 | A message for a topic that the server has subscribed runs the callback of the topic |
| `PubSub.UnsubscribedMeansQuiet` | h2o/deps/hiredis/async.c:628-631 | Out of subscribed context nothing of a subscription is on the way |
| `PubSub.SubscribeExactIff` | h2o/deps/hiredis/async.c:869-888 | A SUBSCRIBE keeps the counts exact if and only if no new topic directly follows a known one with confirmations to come |
| `PubSub.ExactRun` | h2o/deps/hiredis/async.c:865-921 | If every SUBSCRIBE is like that, the counts are exact all along |
| `PubSub.PlainRunEndsTopics` | h2o/deps/hiredis/async.c:509-513 | Then an unsubscription that no subscription follows removes its topic |
| `PubSub.StaysSubscribed` | h2o/deps/hiredis/async.c:880-884 | A run after which the context is subscribed with nothing subscribed and nothing to come, and one more confirmation is expected than will come |
| `PubSubLeaving.QuietSubscribed` | h2o/deps/hiredis/async.c:523-534 | When nothing is subscribed and nothing to come, the flag is set exactly if the dictionary or the count of replies to ignore is not empty |
| `PubSubLeaving.NeverLeaves` | h2o/deps/hiredis/async.c:504-534 | Once a count is too high, the client stays in subscribed context in every continuation |
| `PubSubLeaving.PipelinedForEver` | h2o/deps/hiredis/async.c:869-888 | So it does after the run of `PubSub.StaysSubscribed` |
| `PubSubLeaving.StaysSubscribedForOneTopic` | h2o/deps/hiredis/async.c:901-921 | A run of single-channel commands after which it does so with an empty dictionary, in every continuation |
| `PubSubLeaving.LeavesIffOrderly` | h2o/deps/hiredis/async.c:865-921 | When nothing is subscribed and nothing to come, the client has left subscribed context if and only if no SUBSCRIBE of the run carried a count to a new channel and none named a channel with a counted unsubscription on the way |
| `AsyncContext.Context.SubscribeCommand` | h2o/deps/hiredis/async.c:851-889 | In place: the loop over the topics is the step of the model |
| `AsyncContext.Context.UnsubscribeCommand` | h2o/deps/hiredis/async.c:890-921 | In place: refused out of subscribed context; else the loop over the topics is the step of the model |
| `AsyncContext.Context.Command` | h2o/deps/hiredis/async.c:948-957 | In place: queues the callback where the context says |
| `AsyncContext.Context.ProcessReply` | h2o/deps/hiredis/async.c:602-632 | In place: one answer is the step of the model, and no assertion fails |

## Left out

- Chunked.FinishedParses: requires that the seconds of the clock are not zero when the response ends, because the code takes a time stamp with zero seconds for one not taken.
- The table of codewords of Appendix B of RFC 7541: the code is a parameter with the properties that the generator needs; `HuffmanStandard.StandardCode` derives them from the number of words of each length, and which octet has which word is left open.
- The decoder's fast paths for static tables, header validation outside Huffman strings, and the rest of HPACK.
- Talking to memcached and Redis and parsing what they or a file hold (`QuicKeys` models what is registered of it); the key derivation for QUIC keysets and the stateless reset token.
- Ticket rotation when the clock steps backwards or two calls come within a minute; the internal updater does not do that.
- HTTP/1: chunked request bodies, `Expect: 100-continue`, tunnels and upgrades, informational responses, and the values of timeouts, which appear as one event that drops the connection.
- HTTP/1: the order of the octets of header, body and trailer within one response; `Chunked` models the body and the trailer.
- Admission: QUIC retry packets and version negotiation beyond their effect on the counters.
- Neverbleed: the synchronous path of callers that wait for their own response.
- Dict: allocations that fail other than by the overflow check, the duplication and destruction callbacks, `dictRelease`; keys are compared by equality.
- Dict.Dict.Add: requires a table of at most 2^30 buckets, because the index of a bucket is an int; Replace and KeyIndex likewise.
- Golomb.DecodeSet: requires a non-empty buffer, because the decoder reads the first octet without a check; every non-empty key list gives one.
- Golomb: shifts by 64 bits or more, which C does not define, are shifts of unbounded numbers here.
- Resp: `redisvFormatCommand`, and arguments whose length is found by `strlen`, which are sequences here.
- Resp.Walk: requires lengths below 2^31; `Resp.CallAt` says what one call does beyond.
- PubSub: SUBSCRIBE and UNSUBSCRIBE without names, MONITOR, error replies (they disconnect), and array replies of protocol version 2 that look like messages.
- Forwarding of QUIC packets, YAML configuration, logging, proxying, HTTP/2 and HTTP/3 framing, and everything else of the server.
