# Manwe verification

A Dafny model of the parts of Manwe that are hardest to get right, with proofs for every input,
every run or every interleaving. It covers the HTTP/1.1 response reader and the buffered reader
under it, the descriptor-retirement protocol, the deadline sweeper, the internet checksum and ICMP
echo codec, the keep-alive pool and the admission counter. `dafny verify dfyconfig.toml` checks it
all. The C++ program itself was not executed.

## How it is laid out

| file | what it holds |
|---|---|
| `BufferedReader.dfy` | the byte stream with an adversarial read schedule, `CountingStream`, and `BufferedReader` as a class over an array with two cursors |
| `HttpText.dfy` | trimming, token lists, status and header lines, `Content-Length` |
| `HttpResponse.dfy` | `readResponse` as a function of the flat bytes: the specification |
| `HttpClient.dfy` | `readResponse` as loops over the buffered reader, proved to compute that function |
| `ChunkedCoding.dfy`, `ResponseGrammar.dfy` | what a peer may write, and that the function accepts exactly that |
| `PooledRequest.dfy` | one exchange over a pooled connection, its release and its retry |
| `PooledRuns.dfy` | every run of pooled requests over the pool |
| `RequestHead.dfy` | checking and writing a request head, and reading it back |
| `FdSlot.dfy`, `FdSlotRuns.dfy` | guards, closers and waiters as a transition system; what a waiter and a `close()` can rely on in every continuation |
| `IoDeadline.dfy`, `DeadlineRuns.dfy` | the sweeper and `IoDeadline` as classes; every interleaving of them as a transition system |
| `IcmpEcho.dfy` | checksum, echo request and answer, parser, error detection |
| `ConnectionPool.dfy`, `PoolRuns.dfy` | the pool as a class; every run of it |
| `ConnectionLimiter.dfy` | `tryAcquire` and slot moves as a transition system |
| `Wrappers.dfy` | `Option` |

A concurrent protocol is a transition system with one step per atomic access or critical section,
interleaved arbitrarily between any number of participants, under sequential consistency.
Bytes of an HTTP stream are `char`s; nothing proved needs them below 256. Machine arithmetic is
written out where it could wrap: the 64-bit checksum sum, the 64-bit chunk size and `stoull`.

## Where the code and its comments disagree

The model follows the code. For each of these the exact condition under which the comment is right
is proved, for all inputs, with a failing run or input.

- `FdSlot::Guard` promises that its descriptor stays open for its lifetime. It does exactly if,
  when the guard was counted in, the slot was already retired or no leaver stood between its
  decrement to zero and its exchange of `pending` (`PinnedExactlyWhenNotRaced`, `RacedRun`,
  `UnpinnedRun`).
- `await_suspend` promises that its extra count keeps the descriptor open until the late cancel is
  done. It does exactly if, when the call began, no leaver stood in that window or was about to
  close the descriptor, and it was not closed (`LateCancelExactly`, `LateCancelRun`).
- `FdSlot::close` is idempotent, but a call can return, with no guard left, before the descriptor
  is closed. A call guarantees the closing exactly if it found the descriptor itself, or no earlier
  call has it in hand or may still take it back from `pending` (`CloseGuaranteesExactly`,
  `EarlyReturn`).
- `expired()` promises to say whether a deadline of the instance shut the socket down, and `fired`
  that the socket was shut down. A firing makes the call and sets the flag one after the other: on a
  bare descriptor the flag first, through a stream the call first. So `expired()` keeps the promise
  exactly if an earlier deadline of the instance had fired or none of its deadlines is in the middle
  of firing; it is late exactly for one armed through a stream, so that a read woken by the call can
  still find it false, and early exactly for one on a bare descriptor. `pooledRequest` arms on the
  bare descriptor and is never told late (`FiresAtMostOnce`, `ExpiredExactly`, `RawInTime`,
  `MidFireRun`).
- `DeadlineSweeper::add` undoes its own entry when the sweeper cannot be started. A deadline that
  another thread listed meanwhile stays listed with no sweeper; a step loses the sweeper of a
  listed deadline exactly if it is such a failure with another deadline listed (`WatchedStep`,
  `ArmedAreWatched`, `StrandedRun`).
- The pool's `acquire` takes it that everything older sits in front of the connection it looks at.
  Acquires on a host destroy only stale connections exactly if its queue is ordered by last use.
  The clock is read before the mutex is taken, so a release keeps it ordered exactly if its
  reading is not before the last use of the connection it is put behind
  (`AcquiresLoseOnlyStaleExactly`, `AscendingStepExactly`, `ClockRaceDiscardsFresh`).
- `pooledRequest` retries when "nothing of a response was seen". The flag is set after the first
  line was read, so bytes have arrived unseen exactly if that line is over the line bound, or the
  stream breaks after at least one byte and before the first LF (`UnseenExactly`, `UnseenInputs`).

## Model

| member | source | states |
|---|---|---|
| `BufferedReading.TcpStream.Read` | Soccer/src/TcpStream.cpp:64-92 | A read gives between one and the asked number of the next bytes; at the end it gives none, or throws if the connection breaks |
| `BufferedReading.CountingStream.Read` | Soccer/includes/HttpClient.h:292-303 | The view passes the read through and its total stays the number of bytes pulled since it was made |
| `BufferedReading.BufferedReader.Make` | Soccer/includes/BufferedReader.h:96-112 | A zero capacity is refused; otherwise the reader is empty and has all remaining bytes ahead of it |
| `BufferedReading.BufferedReader.Conservation` | Soccer/includes/BufferedReader.h:274-298 | Bytes pulled off the socket are the bytes handed out plus the bytes still buffered |
| `BufferedReading.BufferedReader.EofEmpty` | Soccer/includes/BufferedReader.h:259-261 | `eof()` means that nothing is left unread anywhere |
| `BufferedReading.BufferedReader.Refill` | Soccer/includes/BufferedReader.h:274-298 | No byte is lost or reordered; entered with an empty buffer it makes exactly one read, and gains a byte, latches the end or throws, so its zero-headroom exit is not taken |
| `BufferedReading.BufferedReader.ReadExact` | Soccer/includes/BufferedReader.h:169-193 | Gives the first min(n, remaining) bytes and leaves the rest; refused, with nothing read, exactly if n is over the bound; throws exactly if the stream breaks first; short only at its orderly end |
| `BufferedReading.BufferedReader.Scan` | Soccer/includes/BufferedReader.h:221-227 | Finds the first delimiter of the buffered region, or that there is none |
| `BufferedReading.BufferedReader.ReadUntilDelim` | Soccer/includes/BufferedReader.h:212-241 | Gives the prefix through the first delimiter, or the rest at end of stream, whatever the read sizes; throws exactly if that record is longer than `maxLine`, or is not and the stream breaks before the delimiter; some byte has been pulled unless none is left |
| `BufferedReading.BufferedReader.ReadLine` | Soccer/includes/BufferedReader.h:250-252 | The same for LF |
| `BufferedReading.RecordEndIs` | Soccer/includes/BufferedReader.h:212-241 | What a record is: it ends in its only delimiter or runs to the end without one, and nothing else does |
| `HttpText.TrimAscii` | Soccer/includes/HttpClient.h:81-88 | The two-cursor loop computes the trimmed value |
| `HttpText.TrimOf` | Soccer/includes/HttpClient.h:81-88 | Trimming removes exactly the spaces and tabs put around a value |
| `HttpText.TrimSplits` | Soccer/includes/HttpClient.h:81-88 | Every string is whitespace, its trimmed value, whitespace |
| `HttpText.TokenCharacters` | Soccer/includes/HttpClient.h:116-126 | A token character is a visible ASCII character that is no delimiter of section 5.6.2 of RFC 9110 |
| `HttpText.CharacterClasses` | Soccer/includes/HttpClient.h:137-156 | A field value carries exactly tab, space, visible and non-ASCII characters, a target no white space; white space is space and tab; digits are the ten |
| `HttpText.IgnoresCaseOnly` | Soccer/includes/HttpClient.h:94-104 | Equality ignoring case holds exactly of strings that differ at most in the case of ASCII letters |
| `HttpText.DecimalGrows` | Soccer/includes/HttpClient.h:335-363 | Decimal notation: a digit appended multiplies by ten and adds it |
| `HttpText.HasTokenMeaning` | Soccer/includes/HttpClient.h:173-185 | A list holds a token exactly if one of the texts between its commas and ends, with spaces and tabs around it removed, equals the token ignoring case |
| `HttpText.ListJoin` | Soccer/includes/HttpClient.h:837-843 | A list joined with a comma holds a token exactly if one of the two lists does |
| `HttpText.ConnectionTokensMeaning` | Soccer/includes/HttpClient.h:837-843 | The joined Connection list holds a token exactly if one of the Connection fields does |
| `HttpText.KeepAliveMeaning` | Soccer/includes/HttpClient.h:834-845 | The connection is kept exactly if no header named Connection holds close and, from an HTTP/1.0 peer, one of them holds keep-alive |
| `HttpText.HeaderLineRoundTrip` | Soccer/includes/HttpClient.h:1217-1231 | A header line with any whitespace around its value parses back to name and value |
| `HttpText.StrictLengthMeaning` | Soccer/includes/HttpClient.h:335-363 | A length is accepted exactly if there is a Content-Length, every one is a plain decimal of at most 12 digits, all agree and the value is within the limit; none is reported exactly if there is no such field |
| `HttpText.LengthFields` | Soccer/includes/HttpClient.h:335-363 | Those two conditions in full: some header is named Content-Length; every one so named has 1 to 12 of the ten digits and the decimal value |
| `HttpText.StrictContentLength` | Soccer/includes/HttpClient.h:335-363 | The loop computes that, with `stoull` never wrapping |
| `HttpText.StringToUnsigned` | Soccer/includes/HttpClient.h:335-363 | The 64-bit conversion of at most 12 digits is the decimal value |
| `HttpResponse.Respond` | Soccer/includes/HttpClient.h:763-973 | When the stream is reported reusable, bytes consumed plus bytes left are all the bytes, in every framing |
| `HttpResponse.ReadBody` | Soccer/includes/HttpClient.h:858-972 | The same for each body framing, starting from the bytes the heads took |
| `HttpResponse.ChunkedOnlyMeaning` | Soccer/includes/HttpClient.h:858-872 | A transfer coding is present exactly if a header is named Transfer-Encoding; it is usable exactly if one header is, just that one, it says chunked, and none is named Content-Length |
| `HttpClient.ReadHeaderBlock` | Soccer/includes/HttpClient.h:800-816 | Over any fragmentation the header loop gives the flat result, and counts exactly the bytes it took |
| `HttpClient.ReadOneHead` | Soccer/includes/HttpClient.h:789-816 | The same for a status line and its headers; the seen flag is set exactly if a first line is read, and bytes have been pulled even if it is not |
| `HttpClient.ReadHeads` | Soccer/includes/HttpClient.h:783-821 | The same past any interim heads to the final one |
| `HttpClient.ReadHexSize` | Soccer/includes/HttpClient.h:884-895 | The 64-bit shifting loop gives the value of the hex run, refuses more than 16 digits and never wraps |
| `HttpClient.ReadChunkSize` | Soccer/includes/HttpClient.h:878-903 | A chunk-size line is accepted with its size, or refused, as the flat function says |
| `HttpClient.ReadTrailers` | Soccer/includes/HttpClient.h:928-940 | The trailer loop gives the flat result and counts exactly the bytes it took |
| `HttpClient.ReadPieces` | Soccer/includes/HttpClient.h:909-917 | The pieces make up the first n bytes; too few fail it, as a truncation at an orderly end and as a stream failure at a break |
| `HttpClient.ReadChunkData` | Soccer/includes/HttpClient.h:909-924 | The data and the CRLF make up one chunk, and are counted exactly |
| `HttpClient.ReadChunked` | Soccer/includes/HttpClient.h:876-941 | The chunk loop decodes what the flat function decodes, counting every byte |
| `HttpClient.ReadToEof` | Soccer/includes/HttpClient.h:958-969 | Without a length the body is everything up to the orderly end, refused exactly if over 16 MiB; a stream that breaks fails it, as too large once a whole 4096-byte piece over the cap has come |
| `HttpClient.JoinConnection` | Soccer/includes/HttpClient.h:837-843 | The loop joins the Connection fields |
| `HttpClient.HeaderListHasToken` | Soccer/includes/HttpClient.h:173-185 | The item loop finds a token exactly if the list holds it |
| `HttpClient.ScanCodings` | Soccer/includes/HttpClient.h:862-872 | A transfer coding is usable exactly if there is one Transfer-Encoding, it says chunked, and no Content-Length is beside it |
| `HttpClient.ReadTheBody` | Soccer/includes/HttpClient.h:858-972 | Body, reuse flag, count and bytes left are those of the flat function |
| `HttpClient.ReadResponse` | Soccer/includes/HttpClient.h:763-973 | For every fragmentation, buffer capacity and line bound, and however the stream ends, the result, reuse flag, count, seen flag and bytes left are those of the flat function of the unread bytes |
| `HttpClient.TwoSchedules` | Soccer/includes/HttpClient.h:763-973 | Two readers over the same bytes and the same ending with different schedules and capacities give the same response, reuse flag, count and seen flag, or the same failure |
| `ChunkedCoding.SizeLineParses` | Soccer/includes/HttpClient.h:878-903 | Every spelling of a size, either case, leading zeros, any extension without CR, LF or NUL, parses to that size |
| `ChunkedCoding.SizeLineSplits` | Soccer/includes/HttpClient.h:878-903 | Only such lines are accepted |
| `ChunkedCoding.HexGrows` | Soccer/includes/HttpClient.h:884-895 | Hexadecimal notation: a digit appended, in either case, multiplies by sixteen and adds it |
| `ChunkedCoding.HexCharacters` | Soccer/includes/HttpClient.h:884-895 | The digits are those 22 characters |
| `ChunkedCoding.HexReadsBack` | Soccer/includes/HttpClient.h:884-895 | Every number written in either case reads back as itself |
| `ChunkedCoding.TrailersOf` | Soccer/includes/HttpClient.h:928-940 | Every bounded trailer section is skipped whole and what follows is left |
| `ChunkedCoding.TrailersSplit` | Soccer/includes/HttpClient.h:928-940 | Only such sections are skipped |
| `ChunkedCoding.DecodesEverySpelling` | Soccer/includes/HttpClient.h:876-944 | Every body within the cap, cut into any non-empty chunks and spelled in any way, decodes to itself, and the bytes after it stay unread in order |
| `ChunkedCoding.DecodesOnlySpellings` | Soccer/includes/HttpClient.h:876-944 | Whatever is decoded was such a spelling of that body |
| `ChunkedCoding.ChunkedExactly` | Soccer/includes/HttpClient.h:876-944 | The two as one if-and-only-if |
| `ResponseGrammar.HeaderBlockOf` | Soccer/includes/HttpClient.h:800-816 | Every bounded sequence of fields is read back as those fields |
| `ResponseGrammar.HeaderBlockSplits` | Soccer/includes/HttpClient.h:800-816 | Every header block read was one |
| `ResponseGrammar.StatusLineParses` | Soccer/includes/HttpClient.h:1190-1208 | Every well-formed status line gives its code, reason and version |
| `ResponseGrammar.StatusLineSplits` | Soccer/includes/HttpClient.h:1190-1208 | Only such lines are accepted |
| `ResponseGrammar.ReadHeadOf` | Soccer/includes/HttpClient.h:783-821 | Up to seven interim heads and a final one, 64 KiB together, give the final head |
| `ResponseGrammar.ReadHeadSplits` | Soccer/includes/HttpClient.h:783-821 | Every head read came after such a preamble |
| `ResponseGrammar.CodeDigits` | Soccer/includes/HttpClient.h:818-826 | A three-digit code is interim exactly if it begins with 1 and is not 101 |
| `ResponseGrammar.ReadsExchange` | Soccer/includes/HttpClient.h:763-973 | Every exchange, in each of the four framings, is read with the status, trimmed reason and headers of its last head and the content of its body, and what follows is left |
| `ResponseGrammar.ExchangeOf` | Soccer/includes/HttpClient.h:763-973 | Every response read is such an exchange |
| `ResponseGrammar.RespondExactly` | Soccer/includes/HttpClient.h:763-973 | `readResponse` reports an outcome for a byte sequence, ending in the stream's end or in a failing read, exactly if the sequence begins with an exchange of up to eight heads, 64 KiB of heads and 16 MiB of content whose last head and content give that status, reason, headers and body |
| `ResponseGrammar.Unambiguous` | Soccer/includes/HttpClient.h:763-973 | No byte sequence can be read as two exchanges that mean different things or end in different places |
| `ResponseGrammar.CutIsNoticed` | Soccer/includes/HttpClient.h:763-973 | An exchange whose end is known from its own bytes, cut short anywhere, is never reported as a response, whether the stream then ends or breaks |
| `PooledRequest.Exchange` | Soccer/includes/HttpClient.h:1020-1041 | The connection is released exactly if it then stands right after the interim and final heads and the body of a reusable response; bytes arrive without the seen flag exactly in the two cases of `Unseen` |
| `PooledRequest.Request` | Soccer/includes/HttpClient.h:984-1055 | The request is written to a second connection exactly if the first came from the pool, a dial succeeds, the method is GET, HEAD, PUT, DELETE, OPTIONS or TRACE in any case, the first attempt did not time out, and its write failed or no first line was read; POST and PATCH never; a GET whose pooled connection gives no byte always; the reply is that of the last attempt; the connection last used is released exactly if it answered and stands at the boundary |
| `PooledRequest.IdempotentNames` | Soccer/includes/HttpClient.h:1101-1106 | The methods that may be repeated are those six, in any case, and not POST or PATCH |
| `PooledRequest.AttemptAnswers` | Soccer/includes/HttpClient.h:1020-1046 | An attempt over a connection on which a whole exchange waits reports its status, reason, headers and body, even past its deadline |
| `PooledRequest.UnseenExactly` | Soccer/includes/HttpClient.h:789-794 | Bytes are there and the flag is not set exactly if the first line is over the bound, or the stream breaks after at least one byte and before the first LF |
| `PooledRequest.UnseenInputs` | Soccer/includes/HttpClient.h:789-794 | An input of each kind |
| `PooledRuns.Serve` | Soccer/includes/HttpClient.h:1020-1041 | The exchange of `pooledRequest` is the step the runs are made of |
| `PooledRuns.IdleAtBoundary` | Soccer/includes/HttpClient.h:439-442 | In every run of any number of clients every connection in the pool, or taken from it and not yet used, stands right after the responses to the requests asked over it |
| `PooledRuns.AcquireReachesEndpoint` | Soccer/includes/HttpClient.h:1004-1040 | In every run an acquire for an endpoint gives only connections dialled to that endpoint, at a message boundary |
| `PooledRuns.WholeExchanges` | Soccer/includes/HttpClient.h:763-973 | What has been taken off a connection at a boundary is whole valid exchanges, one for each request asked over it |
| `PooledRuns.IdleTookWholeExchanges` | Soccer/includes/HttpClient.h:439-442 | So it is for every connection in the pool in every run |
| `RequestHead.CheckRequestParts` | Soccer/includes/HttpClient.h:1116-1131 | Accepts exactly token methods and names, a non-empty host and a target without spaces and controls, clean values and no Transfer-Encoding |
| `RequestHead.FindNames` | Soccer/includes/HttpClient.h:1147-1155 | Finds whether the caller supplies Host and User-Agent |
| `RequestHead.BuildRequestHead` | Soccer/includes/HttpClient.h:1140-1173 | The text is the request line, the headers the request should carry in order, and a blank line |
| `RequestHead.CarriedExactly` | Soccer/includes/HttpClient.h:1140-1173 | Which headers, position by position: Host, Connection and User-Agent in front, the first and last unless the caller gives its own; every caller header that is no Content-Length, as often as given and in the caller's order; Content-Length behind if there is a body or the method is POST, PUT or PATCH; nothing else |
| `RequestHead.HostNamesBoth` | Soccer/includes/HttpClient.h:310-325 | From the automatic Host the caller's host, without the brackets of an IP literal, and port are recovered; the port is left off exactly if it is 0 or 80 |
| `RequestHead.OpenBracketHides` | Soccer/includes/HttpClient.h:310-325 | For a host that opens a bracket and does not close it they are not: its value with a port is that of another host |
| `RequestHead.RequestReadsBack` | Soccer/includes/HttpClient.h:1140-1173 | For all accepted parts the head splits at CRLF into exactly the intended lines, the request line at spaces into method, target and version, and every header line parses back |
| `RequestHead.HeaderParsesBack` | Soccer/includes/HttpClient.h:1217-1231 | A written header line parses to its name and trimmed value |
| `RequestHead.LengthIsTrue` | Soccer/includes/HttpClient.h:1140-1173 | Content-Length appears once with the true size when there is a body or the method is POST, PUT or PATCH, else not at all, and no Transfer-Encoding ever, whatever the caller supplied |
| `RequestHead.ToStringDigits` | Soccer/includes/HttpClient.h:1140-1173 | The written number reads back as itself |
| `FdSlot.StepKeeps` | Embedded/includes/FdSlot.h:57-149 | Every atomic step keeps the invariant: the descriptor is in one place, the count is that of the guards inside, no waiter is stranded |
| `FdSlotRuns.ClosedExactlyOnce` | Embedded/includes/FdSlot.h:128-149 | In every interleaving the descriptor is closed at most once; with some `close()` begun and every guard gone it is closed if and only if it is not parked and no `close()` has it in hand, so once every `close()` has returned |
| `FdSlotRuns.CloseGuaranteesExactly` | Embedded/includes/FdSlot.h:128-149 | A `close()` made in a reachable state guarantees the closing in every continuation, once it has returned and all guards have left, if and only if it found the descriptor itself, or no earlier `close()` has it in hand or may still take it back |
| `FdSlotRuns.StillOpen` | Embedded/includes/FdSlot.h:128-149 | Otherwise a run in which every guard leaves, every other `close()` has returned, and the descriptor is open |
| `FdSlot.NoLostWakeup` | Embedded/includes/FdSlot.h:95-134 | Once the slot is retired and `cancelFd` and every `await_suspend` are done, no waiter is registered on the descriptor |
| `FdSlot.CancelBeforeClose` | Embedded/includes/FdSlot.h:95-107 | A closer, or a waiter that began in a quiet slot, never cancels a descriptor that has been closed |
| `FdSlotRuns.LateCancelExactly` | Embedded/includes/FdSlot.h:95-107 | For an `await_suspend` begun in a reachable state, no continuation cancels the closed descriptor if and only if the slot was quiet then: no leaver in its window or about to close, and the descriptor open |
| `FdSlotRuns.LateCancelRun` | Embedded/includes/FdSlot.h:95-107 | A run from the start that ends about to cancel the closed descriptor |
| `FdSlot.PinnedExactlyWhenNotRaced` | Embedded/includes/FdSlot.h:57-149 | A guard's descriptor stays open in every continuation if and only if at its entry the slot was retired or no leaver stood in its window |
| `FdSlot.RacedRun` | Embedded/includes/FdSlot.h:128-149 | The failing schedule: the descriptor is closed under a guard that holds it |
| `FdSlotRuns.UnpinnedRun` | Embedded/includes/FdSlot.h:57-149 | Such a run from the start |
| `FdSlot.WindowFreeRunsArePinned` | Embedded/includes/FdSlot.h:57-149 | In every run that takes no guard inside such a window nobody holds a closed descriptor and nobody cancels one |
| `FdSlotRuns.EarlyReturn` | Embedded/includes/FdSlot.h:128-134 | The shortest such run: the second of two calls has returned and the first still has the descriptor in hand |
| `IoDeadline.SocketSlot.ShutdownIf` | Soccer/includes/NetUtil.h:201-212 | Shuts down exactly if the slot is alive and still owns that descriptor |
| `IoDeadline.DeadlineSweeper.Visit` | Soccer/includes/IoDeadline.h:134-156 | One entry is dropped exactly if over, orphaned or due; it fires exactly if due, not over and not lost to its stream |
| `IoDeadline.DeadlineSweeper.SweepOnce` | Soccer/includes/IoDeadline.h:129-168 | Exactly the entries that are not over, not orphaned and not yet due stay, in order; exactly those not over, due and still owning their socket shut it down; a guard is marked exactly if one of its entries does; the sweeper ends exactly if nothing is left |
| `IoDeadline.VisitIsRunVisit` | Soccer/includes/IoDeadline.h:134-156 | Dropping, marking and shutting down are those of the visit step of the runs, its firing included |
| `IoDeadline.PickedExactly` | Soccer/includes/IoDeadline.h:158-163 | Every entry that stays is in the list behind exactly those that stay before it, and nothing else is |
| `IoDeadline.DeadlineSweeper.Pass` | Soccer/includes/IoDeadline.h:129-168 | What a pass shuts down was armed, is not over and is due; a set flag stays and none that is over is set; a live deadline on a bare descriptor waits exactly until it is due and is then marked and shut down, as often in all as it was armed |
| `IoDeadline.DeadlineSweeper.SweepLoop` | Soccer/includes/IoDeadline.h:120-126 | The same over any sequence of passes |
| `IoDeadline.DisarmThenSweep` | Soccer/includes/IoDeadline.h:248-260 | After `disarm` no sequence of passes marks the deadline or shuts anything down for it |
| `IoDeadline.FiredByMeaning` | Soccer/includes/IoDeadline.h:144-155 | A guard counts as fired by a pass exactly if one of its entries fires |
| `IoDeadline.DeadlineSweeper.Add` | Soccer/includes/IoDeadline.h:81-109 | Appends the entry and starts the sweeper if none runs; a failed start takes out exactly this guard's entries and withdraws `running` |
| `IoDeadline.Deadline.Arm` | Soccer/includes/IoDeadline.h:220-246 | The earlier deadline is over in every case; a non-positive limit, a bad descriptor and a failed start leave nothing armed and the list as it was; `expired` does not change |
| `IoDeadline.Deadline.Disarm` | Soccer/includes/IoDeadline.h:252-260 | The guard is over and let go, and `expired` does not change |
| `IoDeadline.Deadline.MoveFrom` | Soccer/includes/IoDeadline.h:203-211 | The target has expired exactly if either had; the source is empty; a self-move changes nothing |
| `DeadlineRuns.StepKeeps` | Soccer/includes/IoDeadline.h:81-266 | Every step of arm, disarm, move, spawn and sweep keeps the invariant over guards, list, sweeper and instances |
| `DeadlineRuns.VisitIsLocal` | Soccer/includes/IoDeadline.h:134-156 | Among any other deadlines a visit does what it does alone, and nothing to them |
| `DeadlineRuns.SweepGoesOn` | Soccer/includes/IoDeadline.h:120-168 | In every run a living sweeper can go on: begin a pass, visit what is left of it, finish a firing, end it |
| `DeadlineRuns.OwnerCanDisarm` | Soccer/includes/IoDeadline.h:252-260 | In every run an owner between calls can disarm if and only if its deadline is not being fired, and then is rid of it |
| `DeadlineRuns.DisarmIsFinal` | Soccer/includes/IoDeadline.h:248-260 | Once a deadline is disarmed, no continuation of any run fires it or shuts its socket down |
| `DeadlineRuns.FiresAtMostOnce` | Soccer/includes/IoDeadline.h:129-168 | In every run a deadline makes at most one shutdown call, never early and never after a failed arm; its flag says whether it made the call if and only if it is not in the middle of firing, is late only through a stream and early only on a bare descriptor |
| `DeadlineRuns.PassFiresAllDue` | Soccer/includes/IoDeadline.h:129-168 | When a pass ends, no due deadline is still listed, and each due one has fired once unless disarmed, never armed, or, armed through a stream, found without its socket |
| `DeadlineRuns.ExpiredExactly` | Soccer/includes/IoDeadline.h:262-266 | `expired()` holds exactly if some deadline the instance armed or took over has its flag set; that is whether one shut the socket down if and only if an earlier one had fired or none is in the middle of firing; both one-way halves have their exact condition too |
| `DeadlineRuns.RawInTime` | Soccer/includes/HttpClient.h:1017-1046 | An instance armed on bare descriptors only has expired whenever one of them has been shut down, so the read that wakes finds it so |
| `DeadlineRuns.MidFireRun` | Soccer/includes/IoDeadline.h:148-153 | The two runs in which `expired()` is wrong for a moment: shut down and not expired, expired and not shut down |
| `DeadlineRuns.ExpiredSticks` | Soccer/includes/IoDeadline.h:177-211 | It stays true until the instance is destroyed or moved from |
| `DeadlineRuns.OneSweeper` | Soccer/includes/IoDeadline.h:81-168 | In every run, failed starts included, `running` says whether there is a sweeper alive or about to be started, and there are never two |
| `DeadlineRuns.WatchedStep` | Soccer/includes/IoDeadline.h:94-107 | A step leaves a listed deadline without a sweeper if and only if it is a failed start while another deadline is listed |
| `DeadlineRuns.ArmedAreWatched` | Soccer/includes/IoDeadline.h:81-168 | In every run a listed deadline has a sweeper at every step if and only if no start fails while another deadline is listed; it is then one, alive or about to be started |
| `DeadlineRuns.StrandedRun` | Soccer/includes/IoDeadline.h:94-107 | The run that ends with an armed deadline and no sweeper |
| `IcmpEcho.Accumulate` | Soccer/includes/IcmpEcho.h:184-194 | The loop adds the big-endian words, odd tail padded, modulo 2^64 |
| `IcmpEcho.NeverWrapsExactly` | Soccer/includes/IcmpEcho.h:182-194 | No content of length n wraps the sum if and only if the largest sum of n bytes fits in 64 bits |
| `IcmpEcho.WrapMattersExactly` | Soccer/includes/IcmpEcho.h:182-200 | A wrapped sum folds like the true one if and only if it wrapped a multiple of 65535 times and not to zero |
| `IcmpEcho.Finish` | Soccer/includes/IcmpEcho.h:197-200 | The fold loop ends and gives 0xFFFF minus 0 for 0, else minus ((s-1) mod 65535)+1 |
| `IcmpEcho.Checksum` | Soccer/includes/IcmpEcho.h:77-79 | The checksum of any bytes is the closed form of the sum modulo 2^64, and right exactly if the wrap does not matter, so for every length whose largest sum fits |
| `IcmpEcho.ChecksumIsOnesComplement` | Soccer/includes/IcmpEcho.h:77-79 | It is the complement of the one's-complement sum RFC 1071 defines |
| `IcmpEcho.WireOrder` | Soccer/includes/IcmpEcho.h:207-218 | On either kind of host the fields are big-endian on the wire |
| `IcmpEcho.BuildRequest` | Soccer/includes/IcmpEcho.h:93-118 | Refused exactly above 65507 payload bytes; otherwise the array holds the request packet |
| `IcmpEcho.PacketLayout` | Soccer/includes/IcmpEcho.h:93-118 | Type, code, identifier, sequence number and payload are at the offsets of RFC 792, and the checksum is that of RFC 1071 with its field zero |
| `IcmpEcho.AnsweredIs` | Soccer/includes/IcmpEcho.h:93-118 | The answer RFC 792 prescribes for a request is the packet of type 0 with the same fields |
| `IcmpEcho.Parse` | Soccer/includes/IcmpEcho.h:147-179 | Rejects or parses as the packet function says, for any bytes, comparing with the sum around the checksum field modulo 2^64 |
| `IcmpEcho.ParsesExactly` | Soccer/includes/IcmpEcho.h:158-179 | A packet is accepted exactly if it has eight bytes and is of type 0 or 8; its code and fields are the big-endian ones at their offsets, and it is valid exactly if its checksum is the one RFC 1071 defines |
| `IcmpEcho.ParsesBehindIpExactly` | Soccer/includes/IcmpEcho.h:147-157 | With a header to skip, exactly if it is such a packet behind a well-formed IPv4 header that announces ICMP |
| `IcmpEcho.SplitSum` | Soccer/includes/IcmpEcho.h:172-177 | Summing around bytes 2 and 3 is summing with that field zero |
| `IcmpEcho.RoundTrip` | Soccer/includes/IcmpEcho.h:93-179 | Every request and every answer parses back to its fields and payload with a valid checksum |
| `IcmpEcho.AnswerParses` | Soccer/includes/IcmpEcho.h:147-179 | The answer to any request parses, alone and behind any IPv4 header, to type 0 and the identifier, sequence number and payload that were sent, with a valid checksum |
| `IcmpEcho.RoundTripBehindIp` | Soccer/includes/IcmpEcho.h:147-179 | So does a request behind any well-formed IPv4 header of 20 to 60 bytes |
| `IcmpEcho.DetectsByteChange` | Soccer/includes/IcmpEcho.h:147-200 | Any change of any one byte of any request or answer is rejected or reported invalid |
| `IcmpEcho.DetectsByteChangeBehindIp` | Soccer/includes/IcmpEcho.h:147-200 | Also behind an IPv4 header |
| `IcmpEcho.DetectsWordChange` | Soccer/includes/IcmpEcho.h:147-200 | A change of any whole word of a request or answer goes unnoticed if and only if it is past the checksum field, swaps 0x0000 and 0xFFFF, and a byte outside both is not zero |
| `IcmpEcho.BehindIp` | Soccer/includes/IcmpEcho.h:147-157 | Behind a well-formed IPv4 header everything parses as it does alone |
| `ConnectionPool.KeysDiffer` | Soccer/includes/HttpClient.h:531-536 | Different endpoints never share an entry, even if a host holds colons |
| `ConnectionPool.StaleMeaning` | Soccer/includes/HttpClient.h:1269-1284 | A connection is stale exactly if there is a limit and it has been idle for a millisecond more |
| `ConnectionPool.AcquireExactly` | Soccer/includes/HttpClient.h:1261-1288 | An acquire hands out the newest connection exactly if it is not stale, and takes just that one; else the host is gone; other hosts are not touched |
| `ConnectionPool.PoolsExactly` | Soccer/includes/HttpClient.h:1299-1333 | A released connection is pooled exactly if its host has an entry, or the table of 256 has room, if need be once the hosts with only stale connections are out; and enough of the host's oldest are stale to stay under the cap |
| `ConnectionPool.ReleasedComesBack` | Soccer/includes/HttpClient.h:1261-1333 | A pooled connection is the next one handed out for its host, until it is stale |
| `ConnectionPool.HttpConnectionPool.Acquire` | Soccer/includes/HttpClient.h:1261-1288 | The new table and result are those of the acquire step |
| `ConnectionPool.HttpConnectionPool.AcquireLive` | Soccer/includes/HttpClient.h:1290-1297 | Returns the newest connection that is not dead, all newer ones being dead and dropped, the older ones kept; none only if none was live before a stale one; other hosts untouched |
| `ConnectionPool.HttpConnectionPool.Release` | Soccer/includes/HttpClient.h:1299-1333 | The new table is that of the release step |
| `ConnectionPool.HttpConnectionPool.SweepHosts` | Soccer/includes/HttpClient.h:1310-1317 | Whatever order the table yields its hosts in, each loses its stale front and an emptied one its entry |
| `ConnectionPool.HttpConnectionPool.DropOldest` | Soccer/includes/HttpClient.h:1322-1325 | Drops the stale front of a queue |
| `PoolRuns.PoolConserves` | Soccer/includes/HttpClient.h:1261-1333 | After any run no host entry is empty, at most 256 hosts are held, and every connection ever dialled is in exactly one place: idle once, handed out, or closed |
| `PoolRuns.CapHolds` | Soccer/includes/HttpClient.h:1299-1333 | No host holds more than the largest cap any release used |
| `PoolRuns.AcquiresLoseOnlyStaleExactly` | Soccer/includes/HttpClient.h:1269-1284 | Whatever limits and clocks are read, acquires on a host destroy only stale connections if and only if its queue is ordered by last use |
| `PoolRuns.AscendingStepExactly` | Soccer/includes/HttpClient.h:1261-1333 | A step keeps an ordered queue ordered if and only if it is not a release to that host with a reading before the last use of the connection it is put behind |
| `PoolRuns.OrderedRunsExactly` | Soccer/includes/HttpClient.h:1261-1333 | Over a whole run the queue of a host is ordered at every step if and only if every release that put a connection on it was in order |
| `PoolRuns.NotBackInOrder` | Soccer/includes/HttpClient.h:1299-1333 | It is enough that the readings of the releases to that host do not go back |
| `PoolRuns.AcquireIsNewestFresh` | Soccer/includes/HttpClient.h:1261-1288 | After any run whose releases to the host were in order, an acquire gives a connection exactly if the host has one that is not stale, it is the last used, and an acquire that gives none discards only stale ones |
| `PoolRuns.ReleaseDiscardsOnlyStale` | Soccer/includes/HttpClient.h:1299-1333 | Whatever the order of the queues, a release discards no idle connection of any host that is not stale |
| `PoolRuns.ReleaseLeavesNoStaleExactly` | Soccer/includes/HttpClient.h:1320-1325 | It leaves its own host no stale one, whatever it reads, if and only if the host's queue is ordered |
| `PoolRuns.ClockRaceDiscardsFresh` | Soccer/includes/HttpClient.h:1264-1288 | A run from an empty pool, with readings out of lock order, whose last acquire closes a fresh connection |
| `ConnectionLimiter.CountIsLiveSlots` | Soccer/includes/ConnectionLimiter.h:37-76 | In every interleaving, spurious failures included, the counter is the number of live slots and never exceeds a non-zero maximum |
| `ConnectionLimiter.RefusedOnlyWhenFull` | Soccer/includes/ConnectionLimiter.h:67-76 | A call is refused only if at a read during that call all slots were live |
| `ConnectionLimiter.GrantedWhenFree` | Soccer/includes/ConnectionLimiter.h:67-76 | From every reachable state with no maximum or fewer live slots, a call left alone gets one, however often its exchange fails spuriously |
| `ConnectionLimiter.RefusedWhenFull` | Soccer/includes/ConnectionLimiter.h:67-76 | From every reachable state with all slots live a call can only be refused, and the count stays |
| `ConnectionLimiter.SlotsCanGo` | Soccer/includes/ConnectionLimiter.h:37-62 | In every run a live slot can be released, which leaves room, or moved, which changes no count |

## Left out

- Yarn, Wire, HTTP/2, TLS, DNS, serial ports, GPIO and real sockets: a stream is bytes, a read schedule and an ending; `looksDead`, dialling, writing and `coSpawn` are arbitrary answers of the environment.
- Weak memory orderings and coroutine mechanics: steps are sequentially consistent.
- Timeouts as durations and the arming of deadlines inside `readResponse`: a timeout appears as the `expired` answer that decides the retry, and the sweeper's clock is an integer.
- The move constructors of `BufferedReader` and of `FdSlot::Guard`: they hand fields over.
- The unpooled `request`, `reasonPhrase`, `framedContentLength`, `splitQuery`: easy members.
- The order in which a pass visits the list: `DeadlineRuns` lets it be any order, which includes the list's; `IoDeadline.DeadlineSweeper.SweepOnce` fixes it.
- The limiter's 64-bit counter does not wrap: that takes 2^64 live connections, and the count here is unbounded.
- ResponseGrammar.RespondExactly: stated for a line bound of at least 64 KiB, which is the bound `BufferedReader` has by default and `pooledRequest` uses.
- ConnectionPool.HttpConnectionPool.AcquireLive: states what one thread gets with the table to itself; the mutex is free between its acquires, and with other threads at work each acquire and each drop is a step of its own in `PoolRuns`.
- ConnectionPool.HttpConnectionPool.Release: the destruction of the streams it drops is the step `PoolRuns` moves them to closed in, not a field of the class.
