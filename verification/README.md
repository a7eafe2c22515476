# MaestroCore in Dafny

A model of the parts of MaestroCore, a C networking library, whose behaviour is hard to see from one
function body: the incremental HTTP response decoder, the request sender, the thread pool, the linked
list, the text parsers, the calendar arithmetic and the task scheduler. `dafny verify dfyconfig.toml`
checks everything.

## How it is organised

| file | what it holds |
|---|---|
| `CText.dfy`, `StringUtils.dfy` | C strings, integer parsing, the growing receive buffer |
| `Scanners.dfy`, `HeaderParser.dfy`, `RequestLine.dfy`, `UrlParser.dfy` | the parsers of `http_parser.c` and the texts they invert |
| `ChunkSize.dfy`, `ResponseMachine.dfy` | the receive side of `http_client.c` as a step function over a script of read results |
| `Delivery.dfy`, `ChunkedDecoding.dfy`, `ChunkedWitnesses.dfy`, `EndToEnd.dfy`, `CutIndependence.dfy`, `ByteAccounting.dfy` | theorems about whole receive runs, and concrete failing cuts |
| `Sending.dfy`, `HttpClient.dfy` | the send side, and the client object whose work tasks perform exactly these steps |
| `LinkedList.dfy` | the doubly linked list on the heap |
| `ThreadPool.dfy`, `ThreadPoolTheorems.dfy`, `ThreadPoolObject.dfy` | the pool as a transition system, its guarantees, and the shared record whose critical sections perform its steps |
| `Scheduler.dfy`, `ClientLifecycle.dfy` | the slot table, and HTTP clients living in it |
| `Calendar.dfy` | `timegm` |

A byte is a `char`; nothing depends on its range, so every statement covers all byte strings. The
transport is a finite script of results: bytes, would-block, closed, failed. A read may return any number
of bytes, which includes every size the client's buffers allow. An exhausted script answers would-block.
Acceptance of a status line is an arbitrary predicate `ok`. Where the C code leaves defined behaviour (a
chunk-size field of 48 characters or more overruns a stack buffer; a chunk size whose low 32 bits are
negative as an `int`) the model goes to a state `Undefined`. `UndefinedExactly` says which runs end there. A
well-formed chunked response whose closing section is not cut never does; one whose trailer line is taken for a
size line after a cut can (`TrailerOverruns`).

## Main results

1. **Chunked decoding.** `ChunkedBodyDecodes`: every cut of every well-formed chunked stream decodes to the
   chunk data if no read ends inside the closing section. `ChunkedBodyExact`: the exact outcome for every
   cut, every trailer section and any bytes behind the response (`FateOf`, `Outcome`); the zero-size line is
   consumed before its closing section is known to be there, so after a cut inside that section the section
   itself is read as size lines. Unless its first line reads as zero, the data comes out exactly when no read
   ends inside the section; a cut one is an error exactly then if its first line starts no number, and
   undefined exactly then if that line overruns the line buffer. `TrailerTextAsBody`, `TrailerOverruns`: such a
   cut can hand trailer text over as the body, or leave defined behaviour. `OneReadIsEnough`: for arbitrary
   bytes from the first one on, malformed ones included, the incremental run ends where the run that gets
   everything in one read ends, but for two kinds of cut.
2. **End to end**, from the first byte of the status line to what is handed over, in each framing and over every
   cut. `ContentLengthEndToEnd`: exactly the body. `ContentLengthExact`: with bytes behind the body, the body
   alone exactly when a read ends at its end. `UnframedExact`: with neither length nor chunked coding, the
   whole body exactly when no read ends before its end. `ChunkedEndToEnd`: the data exactly when the closing
   section survives the cut; behind an empty body, what had arrived of the bytes that follow.
   `ChunkedResponse`, `LengthResponse`, `PlainResponse`: the same from the fields as sent. `StatusLineExact`:
   an accepted status line gets through when it has at most 1022 bytes, or 1023 and no read ends between its CR
   and LF, and otherwise never. `BadHeaderFails`: a line without a colon is an error. `HeaderlessExact`: a
   response without header fields returns exactly when an end mark occurs by accident, because it is searched
   only after the status line is gone.
3. **Every byte is accounted for.** `EveryByteAccounted`: in every reachable state, for any input, consumed
   segments ++ buffer ++ undelivered bytes = stream, the decoded body is the data segments, and the segments
   follow the framing the client accepts. `ReturnedIsFramed`, `NoTruncatedBody`: nothing is returned early. That
   framing is wider than chunked coding in one place: as in the code, a zero-size line may be followed by
   another size line, so the run of `TrailerTextAsBody` counts as framed.
4. **Termination.** `RunHalts`, and `HttpClient.ReceiveAll` as a loop; `UndefinedExactly`: when the end is
   undefined behaviour.
5. **Thread pool.** `EveryReachableState` (FIFO, exactly once, work conservation), `WaitReturnsExactly`,
   `SoleWaiterIsWoken` (no lost wake-up while one thread at a time is inside `tp_wait`, any number of times),
   `LostExactlyHere` (the one step that loses one), `NoLostWakeupExactly`, `ShutdownDrains`,
   `ShutdownCompletes`.
6. **Linked list** refines a sequence, operation by operation.
7. **Round trips.** Header section, request line with query, URL in both directions, decimal and hexadecimal
   numbers. `RequestReceived`: a receiver that takes the built request apart finds exactly the intended fields
   and the body.
8. **Calendar.** `timegm` is the bijection that counting seconds defines, and 32-bit arithmetic is exact
   precisely up to 2038-01-19T03:14:07.
9. **Sending and scheduling.** The transport always holds a prefix of the request; sending fails exactly on a
   hard error with the retries used up; callbacks fire at most once, whatever the program initiates
   and disposes of; slots are freed within two sweeps; one `HttpClient.Taskwork` call is one step of a life.

## Model

| member | source | states |
|---|---|---|
| ChunkedDecoding.ChunkedBodyDecodes | modules/src/http_client.c:586-816 | any cut of any well-formed chunked body, with would-blocks, reaches RETURNING with the concatenated chunk data and an empty buffer, if no read ends after the zero-size line and before the end of the closing section |
| ChunkedDecoding.ChunkedBodyExact | modules/src/http_client.c:586-816 | for every cut, trailer section and following bytes: the body is decoded, and nothing of what follows is lost, exactly when the closing section survives; unless the first trailer line reads as zero, that means that no read ends inside the section; otherwise nothing or more than the data is returned (but for the case listed under "Left out"), an ERROR if and only if the section is cut when its first line starts no number, undefined behaviour if and only if it is cut when that line overruns |
| ChunkedDecoding.DecodeFromSize | modules/src/http_client.c:586-720 | the verdict from any chunk boundary, by induction over the delivery |
| ChunkedDecoding.DecodeFromChunk | modules/src/http_client.c:722-816 | the verdict from inside a chunk, where no data left means only the CRLF is pending |
| ChunkedDecoding.CloseFromZero | modules/src/http_client.c:659-715 | the outcome behind a zero-size line, whatever follows the response: complete section, or one that is read on as size lines |
| ChunkedDecoding.ClosingAsSizes | modules/src/http_client.c:586-715 | what becomes of a closing section whose zero-size line is already gone, and of the bytes behind it |
| ChunkedDecoding.SizeLineTaken | modules/src/http_client.c:614-719 | what an arrived size line leads to, for each way it can read |
| ChunkedDecoding.LostInChunk | modules/src/http_client.c:586-816 | a trailer line taken for a non-zero size never leads to the response that was sent, unless it is the last, reads as a multiple of 2^32 and bytes follow; it leads to an ERROR when it reads as such a multiple and is not the last, and to undefined behaviour when the size is negative as an `int` |
| ChunkedDecoding.EmptyChunkInClosing | modules/src/http_client.c:775-816 | a trailer line taken for a size of 2^32 or a multiple leaves a CRLF to be missed: the next trailer line is an ERROR, and the end of the section is taken for it and the following bytes for chunks |
| ChunkedDecoding.LostZeroLine | modules/src/http_client.c:614-651 | where a size line is due, a line that does not start a number is an error, whatever follows it |
| ChunkedDecoding.ClosingDone | modules/src/http_client.c:661-688 | a buffered closing section, with or without trailer fields, is consumed exactly, whatever is behind it |
| ChunkedDecoding.FateOfUncut | modules/src/http_client.c:653-715 | an uncut closing section survives, and one whose first line does not read as zero is lost at that line by any cut |
| ChunkedWitnesses.CutInsideClosingFails | modules/src/http_client.c:653-715 | the smallest failing cut: "0 CRLF" and "CRLF" in two reads end in ERROR, in one read in RETURNING |
| ChunkedWitnesses.TrailerCanRescue | modules/src/http_client.c:675-715 | a cut inside the closing section that still returns |
| ChunkedWitnesses.TrailerTextAsBody | modules/src/http_client.c:586-816 | a cut inside the closing section of an empty body after which "b:c", part of a trailer, is handed over as the body |
| ChunkedWitnesses.TrailerOverruns | modules/src/http_client.c:635-642 | every well-formed response with an empty body and one trailer line whose size field has 48 characters or more ends in undefined behaviour when its zero-size line arrives alone |
| ChunkedWitnesses.NextResponseAsBody | modules/src/http_client.c:659-673 | whatever follows an empty chunked response in the same read is handed over as its body |
| Delivery.DeliversMeans | modules/src/http_client.c:425-442 | the deliveries of the theorems are all scripts of non-empty reads and would-blocks, with anything behind the last byte |
| Delivery.NoStopInMeans | modules/src/http_client.c:692-715 | the cut condition says that no read ends with a number of bytes outstanding in the given range |
| CutIndependence.CutDoesNotMatter | modules/src/http_client.c:586-816 | from any point of a chunked body, for every byte string and cut: state, decoded body and unread bytes at the end equal those of decoding everything at once, if no read ends inside the first closing section |
| CutIndependence.OneReadIsEnough | modules/src/http_client.c:419-862 | from the first byte on, for every byte string and cut and in each framing: state, header fields, decoded body and unread bytes at the end equal those of the run that gets everything in one read, if no read ends between CR and LF of a status line of 1023 bytes or inside the first closing section |
| CutIndependence.SplitLineFails | modules/src/http_client.c:454-472 | a read that ends between CR and LF of a line of 1023 bytes is an error, whatever the bytes |
| EndToEnd.StatusLineExact | modules/src/http_client.c:419-494 | the status line is consumed exactly when it is accepted and has at most 1022 bytes, or 1023 and no read ends between CR and LF; otherwise the run is an error |
| EndToEnd.StatusLineFails | modules/src/http_client.c:454-480 | a status line that is empty, not accepted or does not fit is an error for every cut |
| EndToEnd.BadHeaderFails | modules/src/http_client.c:506-514 | a header section with a line that has no colon makes every response an error, for every cut |
| EndToEnd.HeadersTaken | modules/src/http_client.c:496-549 | the header section is parsed to its fields once complete, whatever the cut |
| EndToEnd.ContentLengthExact | modules/src/http_client.c:419-923 | with any bytes behind the declared body the response returns, and what is handed over is the body exactly when some read ends where the body ends |
| EndToEnd.ContentLengthEndToEnd | modules/src/http_client.c:419-923 | with nothing behind the body, any cut hands over exactly the body |
| EndToEnd.BodyTaken | modules/src/http_client.c:818-862 | reading to the declared length collects the stream up to the end of the read that completes it |
| EndToEnd.UnframedExact | modules/src/http_client.c:531-549 | with neither chunked coding nor a positive length the response returns at once, with the whole body exactly when no read ends before its end |
| EndToEnd.ChunkedEndToEnd | modules/src/http_client.c:419-923 | for every cut, trailer section and following bytes of a whole chunked response: exactly the data is handed over if and only if the closing section survives and, for an empty body, a read ended where the response ends; a surviving empty body otherwise hands over what had arrived of the following bytes; exact conditions for ERROR and undefined behaviour |
| EndToEnd.ChunkedResponse | modules/src/http_client.c:524-528 | from the fields as sent: "chunked" anywhere in the first Transfer-Encoding value makes the response chunked, and the data is handed over exactly when the closing section survives the cut |
| EndToEnd.LengthResponse | modules/src/http_client.c:531-545 | from the fields as sent: a decimal Content-Length and no Transfer-Encoding hand over exactly the body, whatever the cut |
| EndToEnd.PlainResponse | modules/src/http_client.c:531-549 | from the fields as sent: with neither field the response returns with the head, with the whole body exactly when that arrived with it |
| EndToEnd.HeaderlessExact | modules/src/http_client.c:490-549 | a response without header fields returns exactly when the empty line and the body hold an end mark |
| EndToEnd.DecimalIsDeclared | modules/src/http_client.c:531-545 | a Content-Length printed in decimal is the length the client waits for |
| ByteAccounting.EveryByteAccounted | modules/src/http_client.c:480-816 | in every reachable state consumed ++ buffer ++ undelivered = stream, decoded body = data segments, and the segments follow the framing grammar |
| ByteAccounting.StepAccounts | modules/src/http_client.c:419-862 | one work call consumes exactly the segments it takes, for any event |
| ByteAccounting.StepInGrammar | modules/src/http_client.c:419-862 | one work call moves the framing grammar to the state it ends in |
| ByteAccounting.ReturnedIsFramed | modules/src/http_client.c:586-816 | every run that returns, on any input, has split the stream into a response framed as the client accepts it, which lets a size line follow a zero-size line |
| ByteAccounting.NoTruncatedBody | modules/src/http_client.c:531-545 | a plain response is returned only with at least its declared length |
| ResponseMachine.StepProgress | modules/src/http_client.c:419-862 | every work call decreases (events left, buffered bytes, rank) or waits on an empty script |
| ResponseMachine.RunHalts | modules/src/http_client.c:419-862 | every run over a script that contains the close ends in RETURNING, ERROR or undefined behaviour |
| ResponseMachine.UndefinedExactly | modules/src/http_client.c:614-737 | a run ends in undefined behaviour exactly when it takes a line for a chunk-size line that overruns the line buffer or reads as a size negative as an `int` |
| ResponseMachine.ChunkedExactly | modules/src/http_client.c:524-528 | the coding is chunked exactly when the first field named Transfer-Encoding holds "chunked" somewhere in its value |
| ResponseMachine.LengthExactly | modules/src/http_client.c:531-545 | the declared length is that of the first Content-Length field if it reads as a positive `int`, and 0 otherwise |
| ResponseMachine.BrokenRead | modules/src/http_client.c:428-442 | a failed read or a closed connection is an error in every receiving state, except for a body whose declared length is there |
| ResponseMachine.StepConsumes | modules/src/http_client.c:419-862 | a work call takes at most one read result and leaves the receive phase only for RETURNING, ERROR or undefined behaviour |
| ChunkSize.GoodSizeIsRead | modules/src/http_client.c:619-651 | a hexadecimal size field of at most 47 characters below 2^31 is read as its value, extension ignored |
| ChunkSize.HexText | modules/src/http_client.c:640-651 | `strtoull` in base 16 returns the value of a digit string |
| ChunkSize.HexRoundTrip | modules/src/http_client.c:645 | every number printed in base 16, in any mixture of cases and with any leading zeros, has itself as its value |
| ChunkSize.NumberRead | modules/src/http_client.c:644-651 | `strtoull` in base 16 skips white space, sign and prefix, reads the printed number, saturates it, negates it modulo 2^64 behind a minus sign and ignores what follows |
| ChunkSize.NumberMissing | modules/src/http_client.c:647-649 | without a digit behind white space and sign nothing converts |
| ChunkSize.SizeLineRead | modules/src/http_client.c:619-651 | a size line printed with at most 47 digits is read as its number, extension ignored; one digit more overruns the buffer |
| ChunkSize.PrintedIsGood | modules/src/http_client.c:619-651 | every number below 2^31 printed with at most 47 digits is the size of a well-formed chunk |
| ChunkSize.NotASizeLine | modules/src/http_client.c:619-649 | a line that starts with neither white space, sign nor digit is no size line |
| ChunkSize.RemainingMeans | modules/src/http_client.c:651-719 | the chunk size keeps its low 32 bits and becomes that of a positive or a negative `int` |
| HttpClients.HttpClient.WorktaskBuildRequest | modules/src/http_client.c:292-364 | prints the head into a buffer of the computed size and copies the body behind it; the buffer holds the request text, and the error branch is never taken |
| HttpClients.HttpClient.TransportWrite | modules/src/http_client.c:376-383 | one write takes at most what is left of the request, from where the last one stopped |
| HttpClients.HttpClient.WorktaskSendRequest | modules/src/http_client.c:366-417 | performs exactly the send step on the object's fields and sets the retry time |
| HttpClients.HttpClient.WorktaskReadFirstline | modules/src/http_client.c:419-494 | performs exactly the status-line step on the heap buffer |
| HttpClients.HttpClient.WorktaskReadHeaders | modules/src/http_client.c:496-584 | performs exactly the header step, storing the fields in a linked list |
| HttpClients.HttpClient.LookUpFraming | modules/src/http_client.c:524-545 | reads the framing decision off the stored list |
| HttpClients.HttpClient.ReadSize | modules/src/http_client.c:619-651 | the scan and conversion of a size line return what `SizeOf` says |
| HttpClients.HttpClient.WorktaskDecipherChonkiness | modules/src/http_client.c:586-720 | performs exactly the size-line step |
| HttpClients.HttpClient.WorktaskReadBodyChunked | modules/src/http_client.c:722-816 | performs exactly the chunk-data step |
| HttpClients.HttpClient.WorktaskReadBody | modules/src/http_client.c:818-862 | performs exactly the body step |
| HttpClients.HttpClient.WorktaskReturning | modules/src/http_client.c:864-923 | hands the decoded body, or the buffer when nothing was decoded, to the callback or the blocking output; without a receiver ERROR |
| HttpClients.HttpClient.ReceiveAll | modules/src/http_client.c:158-218 | the receive loop ends and computes the run of the machine |
| HttpClients.HttpClient.BlockingReceive | modules/src/http_client.c:158-235 | succeeds exactly when the run returns and an output is given, and then the output holds what the run returned |
| HttpClients.HttpClient.Taskwork | modules/src/http_client.c:925-1028 | one scheduler call: what is held back by the retry clock, which step each state performs, when the callback is called and when the task is given up; outside blocking mode it is exactly one step of the client's life |
| Sending.SentOnceInOrder | modules/src/http_client.c:366-417 | under every script of writes the transport holds a prefix of the request, and reading begins, with the retries reset, exactly when it holds all of it |
| Sending.FailsExactly | modules/src/http_client.c:402-413 | sending ends in ERROR exactly when a hard error comes with the retries used up and the request not out |
| Sending.FourthErrorIsFatal | modules/src/http_client.c:407-412 | at most three hard errors are survived |
| StringUtils.GrowBuffer.Append | utils/src/string_utils.c:100-125 | the old bytes stay, the input follows, a NUL comes after it |
| StringUtils.GrowBuffer.Consume | modules/src/http_client.c:484-491 | shifting in place removes exactly the consumed prefix |
| StringUtils.IntRead | utils/src/string_utils.c:70-98 | white space, a sign, leading zeros and a printed number of together at most 36 characters are read as the number if it is an `int`, else rejected |
| StringUtils.IntRejected | utils/src/string_utils.c:70-98 | no digit, or anything but digits behind the sign, is rejected |
| StringUtils.IntCut | utils/src/string_utils.c:75-81 | of a longer text only the first 36 characters count |
| StringUtils.IntRoundTrip | utils/src/string_utils.c:70-98 | every non-negative int printed in decimal is read back |
| LinkedLists.LinkedList.ItemAdd | modules/src/linked_list.c:17-45 | appends one item; links, ends and count mirror the sequence |
| LinkedLists.LinkedList.ItemRemove | modules/src/linked_list.c:47-73 | removes exactly the given node at any of the four positions and keeps the others' items and order |
| LinkedLists.LinkedList.ItemsDispose | modules/src/linked_list.c:75-84 | terminates with the empty list |
| Scanners.FindLineEnd | modules/src/http_parser.c:210-223 | the first CRLF, or -1 |
| Scanners.FindHeadersEnd | modules/src/http_parser.c:225-237 | the first CRLF CRLF, or -1 |
| Scanners.LineEndOfPrefix | modules/src/http_parser.c:210-223 | on a prefix of a stream the line end is found exactly when it has fully arrived |
| Scanners.HeadersEndOfPrefix | modules/src/http_parser.c:225-237 | the same for the end of the header section |
| Scanners.EndMarkAfterLines | modules/src/http_parser.c:225-237 | non-empty lines closed by an empty one hold their first end mark at the very end |
| HeaderParser.ParseFieldLine | modules/src/http_parser.c:284-315 | splitting and trimming one line by moving its ends |
| HeaderParser.ParseHeaders | modules/src/http_parser.c:239-350 | the stored list is the specified field sequence, null exactly on a line without a colon |
| HeaderParser.HeaderRoundTrip | modules/src/http_parser.c:225-350 | any non-empty list of fields with arbitrary blanks around the values is located and parsed back in order, whatever follows |
| HeaderParser.FieldRoundTrip | modules/src/http_parser.c:284-315 | one rendered field is read back |
| HeaderParser.FieldRead | modules/src/http_parser.c:284-315 | a line is taken apart at its first colon; blanks in front of the value and blanks and stray line ends behind key and value are cut off |
| HeaderParser.NoFieldExactly | modules/src/http_parser.c:284-290 | a line is rejected exactly when it has no colon in front of its first NUL |
| HeaderParser.LinesRead | modules/src/http_parser.c:239-350 | a run of lines is accepted exactly when each has a colon, and gives their fields in order; an incomplete last line is not looked at |
| HeaderParser.Lookup | modules/src/http_parser.c:405-426 | the first exact match, and None exactly when there is none |
| HeaderParser.GetHeaderValue | modules/src/http_parser.c:412-425 | walking the linked list returns that match |
| RequestLine.RequestFits | modules/src/http_client.c:311-357 | the request always fits the computed capacity, so nothing is truncated |
| RequestLine.RequestReceived | modules/src/http_client.c:320-358 | taken apart with the header parser, the built request holds exactly the fields Host, User-Agent and Connection, for a non-empty body of POST or PUT also Content-Length and Content-Type, and behind them exactly the body |
| RequestLine.FieldsAreSent | modules/src/http_client.c:322-341 | what is printed behind the start line is that header section, byte for byte |
| RequestLine.LengthAnnounced | modules/src/http_client.c:320-331 | for POST and PUT the announced length reads back as the number of body bytes; otherwise none is announced |
| RequestLine.RequestRoundTrip | modules/src/http_parser.c:8-137 | the first line of the built request parses back to the method as sent, the path and the ordered parameters |
| RequestLine.PlainRequestRoundTrip | modules/src/http_parser.c:52-61 | without a query the whole target is the path, and an empty one is "/" |
| RequestLine.RequestReassembles | modules/src/http_parser.c:8-137 | every accepted request line is, up to its first NUL, name, target and a non-empty version with one space between them |
| RequestLine.MethodExactly | modules/src/http_parser.c:367-384 | the six method names, and nothing else, are methods |
| RequestLine.QueryRoundTrip | modules/src/http_parser.c:80-119 | a rendered query is read back pair by pair |
| RequestLine.QueryReassembles | modules/src/http_parser.c:80-119 | every query is the rendering of the pairs read from it, followed at most by one piece without '=' |
| RequestLine.ParseParams | modules/src/http_parser.c:80-119 | the query loop fills the list with the specified pairs |
| RequestLine.ParseFirstLine | modules/src/http_parser.c:8-137 | the parser returns the specified request, an error exactly where that is undefined |
| UrlParser.ParseUrl | modules/src/http_parser.c:450-570 | the parser with its loops computes the specified parts |
| UrlParser.UrlRoundTrip | modules/src/http_parser.c:450-570 | any in-bounds, NUL-free scheme, host, port and path is recovered; only the default port and "/" are filled in |
| UrlParser.DefaultPortExactly | modules/src/http_parser.c:543-565 | 443 for "https" and 80 for "http" in any mixture of cases, and no default port for anything else |
| UrlParser.UrlReassembles | modules/src/http_parser.c:450-570 | every accepted URL is, up to its first NUL, such a rendering, all parts within their field sizes |
| ThreadPool.EveryReachableState | modules/src/thread_pool.c:26-155 | in every reachable state: started ++ queue = the tasks added by the run, each of them is finished, running or queued exactly once, `active_tasks` counts the running workers, and no worker sleeps while a queued task lacks an awake worker |
| ThreadPool.SubmittedIsAdded | modules/src/thread_pool.c:125-155 | every call of `tp_task_add` submits its task, in order, and nothing else does |
| ThreadPool.StepKeeps | modules/src/thread_pool.c:30-178 | every critical section and every wake-up keeps the invariant |
| ThreadPoolTheorems.WaitReturnsExactly | modules/src/thread_pool.c:157-167 | `tp_wait` returns exactly when every task added so far has finished |
| ThreadPoolTheorems.ReturnsOnlyWhenDone | modules/src/thread_pool.c:157-167 | no signal and no spurious wake-up gets a caller out of `tp_wait` while a task added so far is unfinished |
| ThreadPoolTheorems.WokenTestAgain | modules/src/thread_pool.c:33-37 | whoever is woken, by a signal, a broadcast or for no reason, tests its condition again |
| ThreadPoolTheorems.NobodyIsHeldUp | modules/src/thread_pool.c:125-183 | adding and stopping are always possible, so is the next step of every thread that does not sleep, and a signal may go to any one sleeper |
| ThreadPoolTheorems.SoleWaiterIsWoken | modules/src/thread_pool.c:157-167 | on every run in which at most one thread at a time is inside `tp_wait`, called any number of times by any number of threads, a blocked waiter always has outstanding work |
| ThreadPoolTheorems.LostExactlyHere | modules/src/thread_pool.c:59-63 | a wake-up is lost exactly by a finish that leaves nothing outstanding and does not signal every blocked caller |
| ThreadPoolTheorems.NoLostWakeupExactly | modules/src/thread_pool.c:59-63 | over all runs of a pool with m waiting threads, a blocked waiter always has outstanding work if and only if m is at most one |
| ThreadPoolTheorems.SecondWaiterIsLost | modules/src/thread_pool.c:157-167 | the run in which `signal` wakes one of two waiters and the other is blocked with nothing outstanding, in every continuation without a new task or a spurious wake-up of its own |
| ThreadPoolTheorems.StaysBlocked | modules/src/thread_pool.c:157-167 | a blocked waiter with nothing outstanding stays blocked through every step but those two |
| ThreadPoolTheorems.StopRun | modules/src/thread_pool.c:34-63 | after stop every thread step decreases 3·queued + 2·running + ready, and threads leave only on an empty queue |
| ThreadPoolTheorems.StopProgress | modules/src/thread_pool.c:34-63 | until all threads have returned, one of them can move |
| ThreadPoolTheorems.ShutdownCompletes | modules/src/thread_pool.c:169-183 | from stop on, a run to the return of all threads exists |
| ThreadPoolTheorems.ShutdownDrains | modules/src/thread_pool.c:169-183 | with no adds after stop, all joins complete only when every task added before has run |
| ThreadPoolObject.ThreadPoolRecord.TaskAdd | modules/src/thread_pool.c:125-155 | the critical section appends the task to the heap queue, and performs the Add step |
| ThreadPoolObject.ThreadPoolRecord.WorkerEnter | modules/src/thread_pool.c:31-50 | the critical section waits or leaves on an empty queue and else dequeues the head, and performs the Enter step |
| ThreadPoolObject.ThreadPoolRecord.WorkerFinish | modules/src/thread_pool.c:59-63 | the critical section performs the Finish step |
| ThreadPoolObject.ThreadPoolRecord.WaitTest | modules/src/thread_pool.c:162-166 | one test of the wait condition performs the TestWait step |
| ThreadPoolObject.ThreadPoolRecord.BeginDispose | modules/src/thread_pool.c:169-178 | the first call performs the Stop step, later calls nothing |
| Calendar.Timegm | utils/src/time_utils.c:18-38 | the loop and the closed form compute `Seconds` |
| Calendar.MonthStep | utils/src/time_utils.c:20-34 | the running sums of the month table are those of a calendar stated without it: 28 or 29 days in February, 30 in four months, 31 in the others |
| Calendar.AgreesWithCounting | utils/src/time_utils.c:18-38 | `Seconds` of the n-th second after the epoch, counted one at a time, is n |
| Calendar.SecondStep | utils/src/time_utils.c:18-38 | successive civil seconds map to successive integers |
| Calendar.StrictlyMonotone | utils/src/time_utils.c:18-38 | calendar order is preserved |
| Calendar.TruncDivMeans | utils/src/time_utils.c:26-27 | the divisions round toward zero, on both sides of it |
| Calendar.LeapDayLost | utils/src/time_utils.c:26-27 | before 1970 the closed form is wrong: it gives the leap year 1968 only 365 days |
| Calendar.Bijective | utils/src/time_utils.c:18-38 | counting reaches every civil time from 1970 on, so the map is a bijection onto the naturals |
| Calendar.FitsIn32Bits | utils/src/time_utils.c:36-37 | every intermediate value fits a 32-bit int exactly up to 2038-01-19T03:14:07 |
| Schedulers.Scheduler.CreateTask | modules/src/scheduler.c:26-39 | the first slot with both pointers NULL is taken, or none |
| Schedulers.Scheduler.DestroyTask | modules/src/scheduler.c:41-54 | exactly that slot is cleared |
| Schedulers.Scheduler.GetTaskCount | modules/src/scheduler.c:76-86 | the number of slots with a callback |
| Schedulers.CreatedExactly | modules/src/scheduler.c:26-39 | creating stores context and callback in the first empty slot and changes no other |
| Schedulers.CountExactly | modules/src/scheduler.c:76-86 | the count is the size of the set of occupied slots |
| Schedulers.CreateThenDestroy | modules/src/scheduler.c:26-54 | destroying undoes creating, and a created task counts one |
| Schedulers.Scheduler.Work | modules/src/scheduler.c:56-74 | the loop performs the sweep while callbacks rewrite the table |
| Schedulers.CalledIffOccupied | modules/src/scheduler.c:56-74 | a slot is called exactly when it holds a callback at the moment it is reached |
| Schedulers.LiveTaskCalledOnce | modules/src/scheduler.c:56-74 | no slot is called twice, and a task that stays in its slot is called exactly once, whatever the callbacks do |
| ClientLifecycle.StepFollows | modules/src/http_client.c:419-862 | the receive machine makes only the state changes the life cycle allows |
| ClientLifecycle.SendFollows | modules/src/http_client.c:366-417 | the sender makes only the state changes the life cycle allows |
| ClientLifecycle.SweepClient | modules/src/http_client.c:925-1028 | in one sweep a client makes exactly one life step, unless it is disposed of before its turn, and no other client's call changes it otherwise |
| ClientLifecycle.FiresAtMostOnce | modules/src/http_client.c:902-922 | at every point of every run of sweeps, initiations and disposals from the empty table, `on_success` has been called at most once per client, never on one that was in ERROR, and exactly once on every other one that left the table without being disposed of from outside |
| ClientLifecycle.CallIsStepThenDeeds | modules/src/http_client.c:864-923 | one call is one life step of its own client and then exactly what the callback does, as it would be done between two sweeps |
| ClientLifecycle.InitiateExactly | modules/src/http_client.c:25-87 | an initiation puts one new client in the first free slot, or does nothing when the table is full |
| ClientLifecycle.DisposeExactly | modules/src/http_client.c:1030-1040 | a disposal takes the client's task away at once and changes no other client and no other slot |
| ClientLifecycle.FreedWithinTwoSweeps | modules/src/http_client.c:1013-1039 | a client in DISPOSING is out of the table after one sweep, one in ERROR after two, whatever is initiated or disposed of in between |
| ClientLifecycle.StaysGone | modules/src/http_client.c:1030-1040 | a disposed client is never called again |

## Left out

- ChunkedDecoding.ChunkedBodyDecodes: states the simple sufficient condition; the exact one is in `ChunkedBodyExact`.
- ChunkedDecoding.ChunkedBodyExact: leaves open what is returned when bytes follow a section that is lost at its last trailer line, one that reads as a non-zero multiple of 2^32; the client then goes on with those bytes as chunks, as `EmptyChunkInClosing` says.
- HttpClients.HttpClient.Taskwork: the two connecting states are left alone, and disposal is the release of the scheduler task only.
- HttpClients.HttpClient.TransportRead: a read result may be longer than the buffer of the calling work task; this only adds scripts.
- LinkedLists.LinkedList.ItemAdd: does not model the wrap-around of `count` at 2^32.
- Sending.FailsExactly: does not model overflow of the retry counter, which empty writes increase without limit.
- Calendar.Timegm: unbounded integers; `FitsIn32Bits` says exactly when that differs from the C arithmetic for civil times from 1970 on.
- Connection set-up (`http_client_worktask_connecting`, `http_client_worktask_waiting_connect`) and the wall-clock timeout: they depend on DNS, errno and the system clock; the life cycle only fixes which states may follow.
- The transports (`tcp_client.c`, `tls_client.c`, `transport.c`, `curl.c`): replaced by scripts of read and write results.
- `http_parser_response_firstline` and the reason-phrase table: acceptance of a status line is an arbitrary predicate.
- Allocation failure, freeing of memory and NULL arguments: single-branch checks.
- Undefined behaviour after an overlong chunk-size field or a chunk size that is negative as an `int`: the model stops there in `Undefined`.
- `http_client_destroy` and use of a client after it; disposal is covered for clients whose memory is still there.
- Partial contents of `URL_Parts` after a rejected URL.
- `tp_init` failure paths and `tp_wait` racing with `tp_dispose`; adds after stop are possible in the model and excluded only where draining is claimed.
- Client tasks are the only tasks in `ClientLifecycle`; arbitrary callbacks are covered by `Schedulers`.
- `timegm` before 1970, where it is wrong (`LeapDayLost`), and with out-of-range fields, and the rest of `time_utils.c`.
- `http_build_full_response`, the configuration, file, logging and JSON helpers: unfinished, I/O, or simple look-ups.
