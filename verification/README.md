# Verified models of the C++ snippets

This project models the six components of the repository that carry logic of their own, and
proves what they promise. `dafny verify dfyconfig.toml` checks all of it.

| component | modules | source |
|---|---|---|
| glob extractor | `Glob`, `Glex` | glex.hpp |
| buffer ring between two threads | `Buffer`, `Ring`, `RingRuns`, `RingCapacity`, `RingQueue` | network/epoll/buffer.hpp |
| datagram fragmentation and stream framing | `Framing`, `Fragmentation` | network/epoll/epoll.hpp, network/epoll/main.cpp |
| game engine | `Rotation`, `Board`, `Tetris` | multi_array_tetris.cpp |
| H.264 depacketizer and reception statistics | `MBuffer`, `RtpReceiver`, `RtpLoss`, `RtcpStats` | android/jni-01 |
| event parser for a JSON-like notation | `JsonParser`, `JsonGrammar`, `JsonRoundTrip`, `JsonSoundness` | js.cc |
| decoder input with two buffers | `DoubleBuffer`, `DoubleBufferRuns` | android/jni-01/ildec.cpp |

`Bytes` and `Sequences` hold octets, network byte order and lists.

How it is built: code that changes things in place is a method or a class with the source's
fields, proved equal to a function on values; the theorems are about those functions. Pointers
and iterators are indices. An exit or assertion of the source is an obligation: where it cannot
be reached that is proved (`assert false` in the branch), and where it depends on the caller it
is a precondition. Socket results, chunk sizes, losses, clocks, piece choices and the order of
threads are parameters, so the theorems hold for all of them.

What the proofs show that the code does not say:

- `globex` with a start part that ends in a star always extracts the empty string
  (`Glex.TrailingStarExtractsNothing`).
- The fragment header has room for 32767 fragments: with one more, the last header is the
  keepalive (`Fragmentation.RoundTripExactly`). The first fragment of a message must not be lost
  alone (`Fragmentation.SplicedExactly`), and the receive buffer needs room for one payload behind
  what an incomplete message leaves in it (`Fragmentation.StaleBytesNeedRoom`). Over whole runs
  these two conditions are exact (`Fragmentation.DeliversExactly`).
- A loss that straddles the wrap of the RTP sequence number goes unnoticed unless it is of at least
  65536 - 0x1fff packets, and so does a multiple of the wrap (`RtpLoss.LossNoticedExactly`); such a
  loss splices NAL units (`RtpLoss.SplicedExactly`), and nothing else does
  (`RtpLoss.CommitsExactly`).
- The cycle counter of the reception statistics starts at one and the base number does not carry
  it, so the cumulative loss of every report is 65536 too high (`RtcpStats.EveryReportOverstates`),
  and the first fraction counts them as lost (`RtcpStats.FirstReportOverstates`); later fractions
  are right (`RtcpStats.LaterIntervals`, `RtcpStats.ReportSound`). For the same reason the assertion
  `received <= expected` fails only from 65537 consecutive duplicates more than numbers skipped
  (`RtcpStats.AssertionHoldsExactly`, `RtcpStats.CopiesBreakExactly`). The comment in the source quotes
  the formulas of RFC 1889, the predecessor of RFC 3550, without that offset. The model follows the
  code.
- The ring drops the oldest message that is not in use (`Ring.AllocDropsOldest`). As long as the
  producer has not had to step over the slot in use, no search has overtaken and no empty buffer was
  committed, it does so only when it is full (`RingCapacity.DropsExactlyWhenFull`); after stepping
  over, also while another slot is free (`RingCapacity.DropsBesideFreeSlot`).
- `done` takes no lock. When both its writes fall between the reads of a `wait` and its first test,
  the newest message overtakes those that wait (`RingRuns.OvertakenWhenever`), and that is the only
  way in which commit order is lost (`RingRuns.InOrderExactly`). With `done` under the mutex it
  could not happen (`RingRuns.LockedNeverOvertakes`). No interleaving is unsafe
  (`RingRuns.RunsAreSafe`).
- `send` of the decoder input takes no lock either, so callbacks can fall between its four tests.
  Then its exit "both used" can be reached (`DoubleBuffer.ExitExactly`,
  `DoubleBufferRuns.ExitReached`), a frame in the decoder overwritten or submitted twice, or a frame
  left waiting that nothing will submit; some placements do no harm
  (`DoubleBuffer.SendInPartsExactly`). The harmful steps are known exactly
  (`DoubleBufferRuns.GoodExactly`), and under the mutex there would be none
  (`DoubleBufferRuns.LockedNeverHarms`).

## Model

| member | source | states |
|---|---|---|
| Glex.Find | glex.hpp:16 | `std::find`: the first place of the character in the range, or its end |
| Glex.Search | glex.hpp:22 | `std::search`: the first place where the literal stands inside the range, or its end |
| Glob.OccursConcat | glex.hpp:87-100 | an occurrence of two patterns in a row splits at some position of the text, and conversely |
| Glob.LiteralOccurs | glex.hpp:76-84 | a pattern without a star occurs exactly where its text stands |
| Glob.OccursReverse | glex.hpp:186-193 | reading pattern and text through reverse iterators keeps every occurrence and adds none |
| Glex.GreedyKeeps | glex.hpp:22-32 | exchange step: taking the first place of a literal behind a star keeps every end the rest can have |
| Glex.GreedyLeads | glex.hpp:22-32 | and adds no end: the earliest end behind that first place ends a match of the whole rest |
| Glex.MatchRes | glex.hpp:8-33 | succeeds exactly when the rest of the pattern occurs anywhere ahead, and leaves `cont.begin` at the earliest end of all its occurrences |
| Glex.LiteralSearch | glex.hpp:76-85 | without a star: found exactly when it occurs, and then the first occurrence |
| Glex.StarSearch | glex.hpp:87-97 | no occurrence begins before the first place of the leading literal, and each leaves its rest ahead of that place |
| Glex.StarSearchFound | glex.hpp:94-102 | leftmost begin and smallest end are reached by one and the same occurrence |
| Glex.PSearch | glex.hpp:66-103 | for every pattern and window: succeeds exactly when the pattern occurs there, and returns the occurrence that begins leftmost and ends earliest of all |
| Glex.FirstStartSuffices | glex.hpp:165-178 | searching the stop part behind the first start match misses no start-then-stop pair and finds the leftmost stop |
| Glex.ReverseSearchFinds | glex.hpp:195-198 | the search over reverse iterators cannot fail once the forward searches have succeeded |
| Glex.LastEndFromReverse | glex.hpp:186-200 | the first match backwards begins at the greatest end of any match forwards |
| Glex.LastEnd | glex.hpp:186-200 | the reverse re-search returns that greatest end; its `assert(0)` is unreachable |
| Glex.ExtractsBetween | glex.hpp:163-203 | the two searches and the re-search together give the innermost extraction |
| Glex.Globex | glex.hpp:146-204 | without `$` the pattern itself; otherwise success exactly when a start match is followed by a stop match, ending at the leftmost such stop and beginning at the greatest start end before it |
| Glex.DollarIsStar | glex.hpp:151-178 | the extraction succeeds exactly when the pattern with its `$` read as a star occurs in the text |
| Glex.TrailingStarExtractsNothing | glex.hpp:186-201 | when the start part ends in a star, the innermost extraction is empty, for every text |
| Buffer.BufferRef.Put | network/epoll/buffer.hpp:27-34 | the content grows by exactly the bytes put |
| Buffer.BufferRef.Commit | network/epoll/buffer.hpp:20-26 | the bytes placed behind the content become content |
| Buffer.BufferRef.Consume | network/epoll/buffer.hpp:35-43 | moving the rest down in place drops exactly the first bytes |
| Ring.StepOverInUse | network/epoll/buffer.hpp:121-124 | stepping over the slot in use does not change the order of what waits |
| Ring.AllocDropsOldest | network/epoll/buffer.hpp:117-131 | allocation never takes the slot in use, and overwrites at most the oldest message not in use |
| Ring.AdvanceKeeps | network/epoll/buffer.hpp:146-151 | the first unlocked write of `done` shows nothing yet |
| Ring.ReleaseAppends | network/epoll/buffer.hpp:152 | the second write puts the message behind all others, unless it is empty |
| Ring.PutsShow | network/epoll/buffer.hpp:27-34 | what is put into the allocated slot shows, once released, as one message in its order |
| Ring.FailShowsAgain | network/epoll/buffer.hpp:161-174 | a message given back with `fail` waits again in its place |
| Ring.FindFirst | network/epoll/buffer.hpp:191-199 | undisturbed, `_findusable` finds the oldest waiting message, and fails exactly when none waits |
| Ring.FoundOldest | network/epoll/buffer.hpp:191-199 | a message found after passing nothing that waits is the oldest |
| Ring.FoundNewest | network/epoll/buffer.hpp:191-199 | a message found in the slot just behind `ip_` is the newest |
| Ring.FoundNothing | network/epoll/buffer.hpp:191-199 | a search that comes to its end has left at most what the last slot shows by then |
| Ring.TakeInOrderExactly | network/epoll/buffer.hpp:133-144 | commit order survives a take if and only if it is the oldest message that is taken |
| Ring.ExactlyOnePlace | network/epoll/buffer.hpp:117-160 | every commit is exactly one of delivered, in use, waiting or overwritten |
| RingRuns.SafeStep | network/epoll/buffer.hpp:117-174 | no step of either side is fatal, and the two sides never hold the same slot; `ip_ == ialloc_` while a slot is being filled |
| RingRuns.SearchEnds | network/epoll/buffer.hpp:191-199 | a search goes on for at most one round, whatever the producer writes meanwhile |
| RingRuns.RunsAreSafe | network/epoll/buffer.hpp:117-174 | the same over every interleaving of the single accesses of alloc, wait, done and fail, with the mutex only where the source takes it |
| RingRuns.AllocRefines | network/epoll/buffer.hpp:117-131 | allocation is the FIFO dropping its oldest message, or nothing |
| RingRuns.ReleaseRefines | network/epoll/buffer.hpp:146-153 | the end of `done` is the commit of the FIFO |
| RingRuns.WaitTakesOldestExactly | network/epoll/buffer.hpp:133-144 | `wait` takes the oldest message of the FIFO, unless the slot it read as `ip_` was being filled, was released before its test, and another message waits; then it takes the newest |
| RingRuns.WaitMissesExactly | network/epoll/buffer.hpp:133-144 | `wait` comes back with nothing only when nothing waited at its start, or when `done` moved `ip_` on between its two reads |
| RingRuns.WaitAlone | network/epoll/buffer.hpp:133-144 | undisturbed, the steps of `wait` are one search in one piece, and it comes back with nothing exactly when the FIFO is empty |
| RingRuns.OvertakenWhenever | network/epoll/buffer.hpp:133-160 | in every state where a message waits while another is being filled, five steps make the newer one overtake |
| RingRuns.MissedWhenever | network/epoll/buffer.hpp:133-160 | and four steps make `wait` come back with nothing |
| RingRuns.WaitingWhileFilling | network/epoll/buffer.hpp:117-160 | such a state is reached from an empty ring of every size |
| RingRuns.RefinesStep | network/epoll/buffer.hpp:117-160 | every step of both sides is a step of a FIFO that drops its oldest, or leaves it as it is |
| RingRuns.OrderStep | network/epoll/buffer.hpp:117-160 | a step leaves commit order if and only if it overtakes |
| RingRuns.InOrderExactly | network/epoll/buffer.hpp:117-160 | over every run without `fail`: commit order throughout if and only if no search overtakes |
| RingRuns.RunsRefineFifo | network/epoll/buffer.hpp:117-160 | over every run without `fail` the ring shows exactly what the FIFO holds; deliveries are in commit order while no search overtakes |
| RingRuns.LockedNeverOvertakes | network/epoll/buffer.hpp:133-160 | if `done` moved `ip_` on only while no search is under way, as it would under the mutex, no search would overtake |
| RingRuns.EveryCommitAccounted | network/epoll/buffer.hpp:117-160 | every run from an empty ring without `fail`: each commit in exactly one place, what was overwritten older than all that waits, the slots read cyclically from `ip_` the waiting messages in commit order |
| RingCapacity.DropsExactlyWhenFull | network/epoll/buffer.hpp:117-160 | over every run without stepping over the slot in use, overtaking, empty commits and `fail`: a claim drops a message if and only if all slots are waiting or in use |
| RingCapacity.DropsBesideFreeSlot | network/epoll/buffer.hpp:117-160 | after stepping over the slot in use a claim drops a message although a slot is free |
| RingQueue.CycleBufferQueue.Alloc | network/epoll/buffer.hpp:117-131 | the new fields and slots are those of the specification; "gt1 using" is unreachable |
| RingQueue.CycleBufferQueue.FindUsable | network/epoll/buffer.hpp:191-200 | the loop from `p` round to `eop` computes the specified search |
| RingQueue.CycleBufferQueue.Wait | network/epoll/buffer.hpp:133-144 | without interference both searches claim the slot the specification finds |
| RingQueue.CycleBufferQueue.Done | network/epoll/buffer.hpp:146-160 | two writes on the allocated slot, two on the slot in use, nothing else |
| RingQueue.CycleBufferQueue.Fail | network/epoll/buffer.hpp:161-174 | gives the slot back and leaves its content |
| Framing.SealMessage | network/epoll/main.cpp:42-50 | `done` on an encoder frame: start code replaced by the length in place, `PadInfo` appended, giving exactly the message of the frame |
| Framing.UnpackInPlace | network/epoll/main.cpp:165-196 | one `unpack`: consumed length, events and rewritten buffer are those specified |
| Framing.UnpackWhole | network/epoll/main.cpp:165-196 | a whole record at the front is taken whole, whatever follows it |
| Framing.UnpackPartial | network/epoll/main.cpp:168-182 | a part of a record is left untouched |
| Framing.WireMarks | network/epoll/main.cpp:42-50 | the marks on the wire: the start code is the number 1, a `PadInfo` has the top bit and its length |
| Framing.ProcessRecvd | network/epoll/epoll.hpp:635-646 | the loop drains exactly what repeated unpacking drains |
| Framing.DrainPrefix | network/epoll/epoll.hpp:635-646 | any prefix of a stream yields the events of the records completed so far and keeps the rest |
| Framing.DrainMore | network/epoll/epoll.hpp:682-683 | draining leftovers with the next chunk is draining everything at once |
| Framing.RestFits | network/epoll/epoll.hpp:669-670 | what is left over always leaves room, so the exit for a full buffer is unreachable |
| Framing.ReadSome | network/epoll/epoll.hpp:672-683 | a read of any size: placed, committed, processed |
| Framing.L1Recv | network/epoll/epoll.hpp:665-685 | over any sizes of reads the events and the buffer depend only on how many bytes were read: all that was offered, unless the free space limited a read, and at least one for each read offered any; an error ends it with the buffer emptied |
| Framing.StreamTx.L1Send | network/epoll/epoll.hpp:686-708 | the bytes of the current message leave in order, none twice, none skipped, and as many as the socket offers; an error before the end gives up the rest |
| Framing.StreamTx.TrySendX | network/epoll/epoll.hpp:612-621 | the same from the current message, or else from the next one taken off the queue |
| Framing.CutIndependence | network/epoll/epoll.hpp:665-685 | for every cutting of a stream into chunks every record is seen exactly once, in order, and nothing stays behind |
| Framing.StreamRoundTrip | network/epoll/main.cpp:42-50 | end to end: the client recovers exactly the start-code frames and `PadInfo` records of the server, for frames of 4 to 2^24 - 1 bytes and any cutting |
| Framing.Exchange | network/epoll/epoll.hpp:612-708 | one round of writes and reads: what is written follows in order, what is read is seen, and a round that offers something reads something |
| Framing.Transfer | network/epoll/epoll.hpp:612-708 | `l1send` and `l1recv` against each other over any sizes of writes and reads: at any time exactly the events of the bytes read, and after rounds enough every frame and record once |
| Fragmentation.OnlyFinalFlagged | network/epoll/epoll.hpp:782-795 | only the final fragment carries the last flag, indices count up, and no header reads as a keepalive |
| Fragmentation.FragmentsFill | network/epoll/epoll.hpp:776-780 | every fragment but the last fills a datagram of 1456 bytes, and the parts are those of the message |
| Fragmentation.NoFragment | network/epoll/epoll.hpp:835-858 | what an empty, a short and an over-long keepalive datagram do, and any datagram after closing |
| Fragmentation.KeepalivesIgnored | network/epoll/epoll.hpp:850-858 | a run depends on the fragments alone, wherever keepalives stand |
| Fragmentation.FirstFragment | network/epoll/epoll.hpp:883-886 | fragment 0 starts afresh whatever the receiver was left with, in the room that leaves |
| Fragmentation.BrokenStays | network/epoll/epoll.hpp:880-888 | once an index is missed the rest of the message is given up, and any later fragment of it empties the buffer |
| Fragmentation.WholeSoFar | network/epoll/epoll.hpp:864-879 | a message without a gap so far is delivered, cut to the buffer, exactly when the rest of its fragments survive; what else it leaves |
| Fragmentation.NoneSoFar | network/epoll/epoll.hpp:864-888 | a message whose first fragments are lost continues the one before exactly when its first survivor has the index awaited |
| Fragmentation.HeadArrives | network/epoll/epoll.hpp:824-890 | a message whose fragment 0 survives: one delivery if all survive, unharmed exactly when there is room, and otherwise none |
| Fragmentation.HeadLost | network/epoll/epoll.hpp:824-890 | a message whose fragment 0 is lost: a delivery exactly when it is spliced to the start of another |
| Fragmentation.DeliversExactly | network/epoll/epoll.hpp:824-890 | over every run, whatever is lost: the deliveries are the messages all of whose fragments survive, if and only if no message is spliced to the start of another and each complete one has room |
| Fragmentation.WireDeliversExactly | network/epoll/epoll.hpp:824-890 | the same for datagrams on the wire with keepalives anywhere |
| Fragmentation.AdmissibleIsClean | network/epoll/epoll.hpp:824-890 | it is so when each message with a surviving fragment keeps its fragment 0, and the buffer has one payload to spare behind what an incomplete one leaves |
| Fragmentation.LossSafe | network/epoll/epoll.hpp:824-890 | then exactly the messages all of whose fragments survive are delivered, in order and unharmed |
| Fragmentation.WireLossSafe | network/epoll/epoll.hpp:824-890 | the same on the wire |
| Fragmentation.RoundTrip | network/epoll/epoll.hpp:770-818 | without loss the deliveries are the list of messages sent |
| Fragmentation.RoundTripExactly | network/epoll/epoll.hpp:782-795 | a message sent without loss is delivered if and only if it has at most 32767 fragments of 1452 bytes |
| Fragmentation.SplicedExactly | network/epoll/epoll.hpp:864-888 | when a tail and the next head are lost, two messages are spliced if and only if the indices happen to meet |
| Fragmentation.StaleBytesNeedRoom | network/epoll/epoll.hpp:826-835 | behind the bytes of an incomplete message any message that fits the buffer is unharmed if and only if its first payload fits in behind them |
| Fragmentation.UdpIo.Take | network/epoll/epoll.hpp:927-934 | a message taken off the queue is pending as all its fragments |
| Fragmentation.UdpIo.L2Send | network/epoll/epoll.hpp:770-818 | each call sends exactly the next pending fragment behind both header words; it closes the socket exactly on a short or failed write |
| Fragmentation.UdpIo.SendAll | network/epoll/epoll.hpp:922-939 | fragment by fragment the pending and the queued messages leave, one for each send, until the sends are used up or nothing is left; a short or failed send closes |
| Fragmentation.UdpIo.Prewait | network/epoll/epoll.hpp:922-949 | with full sends enough everything pending and queued leaves; a keepalive goes out exactly when the connection was quiet and nothing was sent |
| Fragmentation.UdpIo.Reassemble | network/epoll/epoll.hpp:864-888 | continue, start afresh or give up, as specified per fragment |
| Fragmentation.UdpIo.L2RecvOne | network/epoll/epoll.hpp:824-890 | the new state and the events are those of the specified step, truncation and closing included |
| Fragmentation.UdpIo.L2Recv | network/epoll/epoll.hpp:820-843 | the loop over datagrams is the specified run, and ends when nothing more is read or the read fails |
| Fragmentation.ClientTakesMessage | network/epoll/main.cpp:165-196 | the client takes a message of the server whole, as its frame and its record |
| Fragmentation.FramesUnderLoss | network/epoll/epoll.hpp:824-890 | from encoder to file in every clean run: exactly the frames none of whose fragments is lost are written, in order |
| Rotation.TurnRing | multi_array_tetris.cpp:45-57 | the swap loop turns the outer ring of a view and nothing else |
| Rotation.RotateView | multi_array_tetris.cpp:37-68 | rotation of a view of any size is exact inside and changes nothing outside; the recursion ends |
| Rotation.Rotate90Right | multi_array_tetris.cpp:37-68 | the in-place rotation is the clockwise rotation of the matrix |
| Rotation.FourTurnsAreNone | multi_array_tetris.cpp:37-68 | four rotations are the identity |
| Rotation.RotationPermutes | multi_array_tetris.cpp:52-56 | rotation only moves cells: every value occurs as often as before |
| Board.LockedFilled | multi_array_tetris.cpp:110-122 | locking a piece that does not collide adds exactly its cells |
| Board.CollapsedIsClean | multi_array_tetris.cpp:231-254 | after a collapse no row is full and the board keeps its shape |
| Board.CollapsedFilled | multi_array_tetris.cpp:231-254 | each removed row takes one width of cells with it |
| Board.FullExactly | multi_array_tetris.cpp:236 | a row is full exactly when as many cells are filled as it has |
| Tetris.Main.IsCollision | multi_array_tetris.cpp:94-108 | true exactly when a cell of the piece meets a cell or a wall |
| Tetris.Main.OrAssign | multi_array_tetris.cpp:110-122 | the board with the piece filled in, cells outside lost |
| Tetris.Main.CollapseRow | multi_array_tetris.cpp:235-249 | one row: cleared, moved down by the rows cleared so far, kept, or the end of the recursion |
| Tetris.Main.Collapse | multi_array_tetris.cpp:231-254 | the rows that stay sink in their order under as many empty rows as were removed |
| Tetris.CollapseWhole | multi_array_tetris.cpp:189-192 | collapsing only the rows the piece can have filled is collapsing the board |
| Tetris.OnlyPieceRowsFull | multi_array_tetris.cpp:189-192 | locking can fill only rows the piece spans |
| Tetris.Main.SettlePiece | multi_array_tetris.cpp:188-193 | lock and collapse give the specified board |
| Tetris.Main.Move | multi_array_tetris.cpp:175-203 | the new state and the answer are those of the rules |
| Tetris.Main.Rotate | multi_array_tetris.cpp:205-214 | the turned copy is kept exactly when it fits |
| Tetris.Main.Enter | multi_array_tetris.cpp:158-170 | row 0 is reached exactly when nothing is met on the way in; otherwise the piece is merged where it first meets something |
| Tetris.Main.NextRound | multi_array_tetris.cpp:154-173 | a round starts exactly when the preview can enter, with the piece at row 0 |
| Tetris.Main.Drop | multi_array_tetris.cpp:347 | the piece is locked at the first row below which something is in its way, in the column it had; the loop ends |
| Tetris.Main.Round | multi_array_tetris.cpp:343-348 | one round: the preview enters, is turned once if that fits, and lands |
| Tetris.Main.Play | multi_array_tetris.cpp:343-348 | the states between the rounds are those of the rules, choice by choice; at the end of the game the preview is merged in the first row where it meets something |
| Tetris.RoundsOnce | multi_array_tetris.cpp:343-348 | the state after a round is settled by the state before and the choice |
| Tetris.MoveMovesCells | multi_array_tetris.cpp:175-203 | a move that succeeds moves every cell of the piece by one, down, left or right |
| Tetris.EntersInTheMiddle | multi_array_tetris.cpp:154-173 | on an empty wide board a piece enters in the middle at the top, and the choice becomes the preview |
| Tetris.AboveFloor | multi_array_tetris.cpp:175-203 | the rows below a falling piece are a measure |
| Tetris.SettleKeepsValid | multi_array_tetris.cpp:188-193 | locking and collapsing keep the conservation law and leave no full row |
| Tetris.NextKeepsValid | multi_array_tetris.cpp:154-214 | every operation keeps the invariant |
| Tetris.ReachableStates | multi_array_tetris.cpp:154-214 | in every reachable state the piece overlaps neither board nor walls and is at row 0 or below, no row is full, and filled cells are 4 per locked piece less a width per removed row |
| Tetris.PiecesHaveFourCells | multi_array_tetris.cpp:270-317 | each of the seven matrices is square with four cells |
| MBuffer.MBuffer.Put | android/jni-01/hgs.hpp:175-184 | the NAL unit grows by exactly the bytes put; size stays within capacity through reallocation |
| MBuffer.MBuffer.Init | android/jni-01/hgs.hpp:222-229 | header, start code and NAL unit header |
| MBuffer.MBuffer.MoveFrom | android/jni-01/hgs.hpp:209-218 | the content moves and the source is left empty |
| RtpReceiver.RtpReceiver.StapA | android/jni-01/hgs-rtph264.cpp:247-260 | the walk yields the aggregation units, skipping empty ones and stopping at one too long |
| RtpReceiver.CountedWhenKept | android/jni-01/hgs-rtph264.cpp:261-290 | the statistics see exactly the fragments that are kept |
| RtpReceiver.OthersIgnored | android/jni-01/hgs-rtph264.cpp:247-299 | payloads of other types, and those cut short, change nothing |
| RtpReceiver.ShortIgnored | android/jni-01/hgs-rtph264.cpp:360-379 | datagrams too short for their headers change nothing |
| RtpReceiver.RtpReceiver.FuA | android/jni-01/hgs-rtph264.cpp:261-290 | start, loss, continuation and end of a fragmented unit as specified, and whether the fragment goes to the statistics |
| RtpReceiver.RtpReceiver.NaluIncoming | android/jni-01/hgs-rtph264.cpp:239-299 | each payload type as specified, and what goes to the statistics |
| RtpReceiver.RtpReceiver.HandleDatagram | android/jni-01/hgs-rtph264.cpp:360-379 | parsing, loss test and depacketization of one datagram |
| RtpLoss.HeaderRebuilt | android/jni-01/hgs-rtph264.cpp:264-270 | the NAL unit header is rebuilt from F, NRI and the FU type |
| RtpLoss.AggregateRead | android/jni-01/hgs-rtph264.cpp:247-260 | a STAP-A is read back to the units aggregated |
| RtpLoss.AnyAggregateRead | android/jni-01/hgs-rtph264.cpp:247-260 | in any aggregate empty units are skipped, and a unit cut off ends the walk |
| RtpLoss.LossNoticedExactly | android/jni-01/hgs-rtph264.cpp:364-372 | the number test misses a loss exactly when it straddles the 16-bit wrap by fewer than 65536 - 0x1fff numbers or is a multiple of the wrap |
| RtpLoss.BrokenStays | android/jni-01/hgs-rtph264.cpp:275-290 | behind a loss, fragments commit something exactly when they end a unit that an unnoticed loss has spliced |
| RtpLoss.WholeSoFar | android/jni-01/hgs-rtph264.cpp:285-288 | a unit collected without a gap is committed whole exactly when the rest of its fragments survive |
| RtpLoss.OneUnit | android/jni-01/hgs-rtph264.cpp:239-299 | one unit, whatever came before: whole when all its packets survive, and otherwise nothing but a spliced one |
| RtpLoss.CommitsExactly | android/jni-01/hgs-rtph264.cpp:239-299 | over every run, whatever is lost: exactly the NAL units none of whose packets is lost are committed, once, in order and unharmed, if and only if no spliced unit is ended |
| RtpLoss.FollowsIsClean | android/jni-01/hgs-rtph264.cpp:364-372 | no unit is spliced while every loss shows in the numbers |
| RtpLoss.LossSafe | android/jni-01/hgs-rtph264.cpp:239-299 | then exactly the NAL units none of whose packets is lost are committed |
| RtpLoss.DepacketizesExactly | android/jni-01/hgs-rtph264.cpp:360-379 | the same if-and-only-if for datagrams with RTP headers of any shape, from the first one on |
| RtpLoss.DepacketizesUnderLoss | android/jni-01/hgs-rtph264.cpp:360-379 | and its one direction while every loss shows in the numbers |
| RtpLoss.SplicedExactly | android/jni-01/hgs-rtph264.cpp:367-372 | two units are committed as one if and only if the loss between them is not noticeable |
| RtcpStats.RtpStatisInfo.Statis | android/jni-01/hgs-rtph264.cpp:467-493 | the counters after a packet, in the widths of the source |
| RtcpStats.RtpStatisInfo.Rreport | android/jni-01/hgs-rtph264.cpp:613-637 | the report block, with the cumulative loss cut to 24 bits, wherever the assertion of the source holds |
| RtcpStats.CountedRaisesExactly | android/jni-01/hgs-rtph264.cpp:473-482 | a counted packet raises the extended number, if the cycle counter does not wrap, unless it repeats the one counted last |
| RtcpStats.CountedExactly | android/jni-01/hgs-rtph264.cpp:473-482 | a packet late by less than 0x0fff numbers changes nothing, every other one is counted |
| RtcpStats.StatisKeepsSound | android/jni-01/hgs-rtph264.cpp:467-483 | at most one packet is counted per number passed |
| RtcpStats.RunsAreSound | android/jni-01/hgs-rtph264.cpp:467-483 | the same over every run of packets and reports |
| RtcpStats.ReportSound | android/jni-01/hgs-rtph264.cpp:617-632 | received is below expected by the cycle offset, losses are not negative, the fraction is the share lost in 256ths and fits an octet, empty intervals included; it is above 0 exactly when the interval is at most 256 times the loss |
| RtcpStats.EveryReportOverstates | android/jni-01/hgs-rtph264.cpp:617-637 | the cumulative loss of every report is 65536 above the packets missing, in its 24 bits |
| RtcpStats.FirstReportOverstates | android/jni-01/hgs-rtph264.cpp:617-632 | the offset makes the first fraction show a loss, with nothing missing, exactly until 255 cycles have been received |
| RtcpStats.LaterIntervals | android/jni-01/hgs-rtph264.cpp:622-626 | between reports the offset cancels: the interval is what the extended number has advanced by |
| RtcpStats.ReportsFromTheStart | android/jni-01/hgs-rtph264.cpp:467-483 | over every run from zeroed counters: soundness, the cumulative loss, and the fraction where the signed numbers hold it |
| RtcpStats.CountingRun | android/jni-01/hgs-rtph264.cpp:467-483 | over every run the numbers passed less the packets counted are the numbers skipped less the consecutive duplicates |
| RtcpStats.AssertionHoldsExactly | android/jni-01/hgs-rtph264.cpp:613-620 | over every run from zeroed counters, with whatever duplicates: the asserted `received <= expected` holds exactly while the consecutive duplicates are no more than the numbers skipped and 65536 |
| RtcpStats.CopiesBreakExactly | android/jni-01/hgs-rtph264.cpp:613-620 | it fails: one packet and k copies of it break it exactly from 65537 copies on |
| RtcpStats.CumulativeOfAnyRun | android/jni-01/hgs-rtph264.cpp:617-637 | the cumulative loss over every such run: the numbers skipped less the duplicates, and 65536, in 24 bits |
| RtcpStats.HighestOfAnyRun | android/jni-01/hgs-rtph264.cpp:617-640 | the highest number reported is that of the packet counted last, with the rounds of the numbers, counted from 1, above it |
| RtcpStats.FractionOfAnyRun | android/jni-01/hgs-rtph264.cpp:617-632 | the fraction over every such run: 0 when more was counted than expected, otherwise the share lost, below 256 |
| RtcpStats.LagKept | android/jni-01/hgs-rtph264.cpp:486-489 | the transit kept is how much later than its time stamp the packet arrived, 0 when it came early |
| RtcpStats.JitterMoves | android/jni-01/hgs-rtph264.cpp:486-491 | for two packets counted one after the other the estimate moves by the difference of their lags, less a sixteenth of itself, rounded |
| RtcpStats.JitterReported | android/jni-01/hgs-rtph264.cpp:634 | the reported jitter is the estimate in whole units |
| RtcpStats.JitterOfTwo | android/jni-01/hgs-rtph264.cpp:486-491 | two packets sent 40 apart that arrive 240 apart give 200, reported as 12 |
| RtcpStats.JitterStep | android/jni-01/hgs-rtph264.cpp:491 | one jitter update neither underflows nor leaves its bound |
| RtcpStats.JitterBounded | android/jni-01/hgs-rtph264.cpp:484-492 | over every run of packets and reports, whatever the numbers: while transit times differ by at most d the estimate stays in 0 to 16 d + 7, so the reported jitter never exceeds d; from zero it stays below d, or at 0 |
| JsonParser.JsaxString | js.cc:187-198 | a quoted token as specified |
| JsonParser.JsaxDigital | js.cc:200-215 | a number token as specified |
| JsonParser.JsaxItem | js.cc:117-133 | one round of the loop |
| JsonParser.JsaxArray | js.cc:101-140 | result, position and callbacks are those specified, on success and on failure |
| JsonParser.JsaxWalk | js.cc:142-185 | the same for a value |
| JsonParser.ParseArray | js.cc:101-140 | the position stays in the text and strictly advances on success |
| JsonGrammar.StringRead | js.cc:187-198 | a printed string is read back |
| JsonGrammar.NumberRead | js.cc:200-215 | a printed number is read back up to where no digit or point follows |
| JsonGrammar.BooleanRead | js.cc:217-242 | a printed boolean is read back |
| JsonGrammar.Alphabet | js.cc:94-99 | the white space, digits, quotes and brackets |
| JsonGrammar.TypesDiffer | js.cc:8 | strings, numbers and booleans are reported with types of their own |
| JsonParser.ReportsStay | js.cc:116-139 | what has been reported stays reported, whether or not the rest fails |
| JsonParser.FailedContainer | js.cc:154-159 | a container that fails has been reported as opened, with what was read of it, and not as closed |
| JsonRoundTrip.ValueRead | js.cc:142-185 | a printed value is read with exactly its callbacks |
| JsonRoundTrip.ItemsRead | js.cc:116-139 | a printed list of items is read with its keys or its indices from 1 |
| JsonRoundTrip.RoundTrip | js.cc:101-140 | every printed tree, with any white space, is read up to just past its bracket and reports exactly its New, Set and Fin callbacks |
| JsonSoundness.AcceptsExactly | js.cc:101-185 | a text is accepted at a position exactly when a printed tree stands there |
| JsonSoundness.ValueNests | js.cc:154-159 | New and Fin of a container enclose exactly the callbacks of its children |
| JsonSoundness.AcceptedEventsNest | js.cc:101-185 | the callbacks of every accepted parse are balanced |
| DoubleBuffer.SendKeepsValid | android/jni-01/ildec.cpp:255-278 | `send` in one piece keeps: at most one buffer in the decoder, a frame waits only behind it and is the newest, every frame is accounted for; "both used" is unreachable |
| DoubleBuffer.CopyKeepsExactly | android/jni-01/ildec.cpp:274-278 | whatever the tests have decided, the copy keeps this exactly when a buffer to be submitted finds none in the decoder, and another one finds itself out of it and the other in it |
| DoubleBuffer.ReturnsAlternate | android/jni-01/ildec.cpp:279-297 | callbacks alternate between the buffers until both are free |
| DoubleBuffer.ExitExactly | android/jni-01/ildec.cpp:261-269 | with callbacks between the four unlocked tests: "both used" is reached exactly when the first buffer is in the decoder, the second waits, and a single callback falls between the third and the fourth test |
| DoubleBuffer.SendInPartsExactly | android/jni-01/ildec.cpp:255-278 | with callbacks before any of the tests and before the copy: all is kept exactly by the listed placements |
| DoubleBufferRuns.StepExactly | android/jni-01/ildec.cpp:255-306 | with every test and write of flags a step: a step keeps what is promised if and only if it is not one of the listed harmful ones |
| DoubleBufferRuns.GoodAtRest | android/jni-01/ildec.cpp:255-306 | between calls this is the promise of the calls in one piece |
| DoubleBufferRuns.SendAlone | android/jni-01/ildec.cpp:255-278 | undisturbed, the steps of `send` are the call in one piece |
| DoubleBufferRuns.CallbackAlone | android/jni-01/ildec.cpp:279-297 | and so are those of `callback` |
| DoubleBufferRuns.GoodExactly | android/jni-01/ildec.cpp:255-306 | over every interleaving of `send` and `callback`: all is kept throughout if and only if no step is harmful |
| DoubleBufferRuns.OneWaits | android/jni-01/ildec.cpp:255-278 | two calls of `send` leave one frame in the decoder and one waiting, for every number of buffers |
| DoubleBufferRuns.ExitReached | android/jni-01/ildec.cpp:261-297 | from there the third call reaches the exit |
| DoubleBufferRuns.LockedNeverHarms | android/jni-01/ildec.cpp:255-297 | if `send` took the mutex no step could do harm |
| DoubleBufferRuns.LockedKeepsAll | android/jni-01/ildec.cpp:255-297 | and every run from a fresh port would keep all, throughout |
| DoubleBuffer.CallbackKeepsValid | android/jni-01/ildec.cpp:279-297 | the completion callback keeps the same |
| DoubleBuffer.NewestNeverLost | android/jni-01/ildec.cpp:255-316 | over every interleaving submitted frames increase, frames sent are submitted, waiting or replaced, and the newest is never the one replaced |
| DoubleBuffer.InputPort.Send | android/jni-01/ildec.cpp:255-278 | slots and counters after `send` are those specified |
| DoubleBuffer.InputPort.Callback | android/jni-01/ildec.cpp:279-297 | slots and counters after `callback` are those specified |
| DoubleBuffer.InputPort.EmptyThisBuffer | android/jni-01/ildec.cpp:298-306 | the buffer is handed to the decoder and the replacement counter restarts |

## Left out

- RingRuns.RunsRefineFifo: does not cover `fail`, because a failed message returns to its old place and is delivered out of commit order; `RingRuns.RunsAreSafe` covers it.
- RingRuns.RunsAreSafe: takes the accesses of each thread as atomic and in program order; reordering of unlocked accesses by compiler or processor is not modelled.
- Fragmentation.WireLossSafe: assumes that a message with a surviving fragment keeps its fragment 0 and that the buffer has a payload to spare behind what an incomplete one leaves; `Fragmentation.WireDeliversExactly` has the exact condition instead.
- Fragmentation.DeliversExactly: is about messages of at most 32767 fragments that the sink takes whole; for longer ones `Fragmentation.RoundTripExactly` says what happens without loss.
- RtpLoss.DepacketizesUnderLoss: assumes losses the 16-bit numbers can show; `RtpLoss.DepacketizesExactly` has the exact condition instead. Packets arrive in order, as the receiver expects them.
- RtcpStats.RunsAreSound: excludes consecutive duplicates, which break it; `RtcpStats.CountingRun` and what follows from it allow them. Both exclude a wrap of the cycle counter or of the 32-bit counts.
- RtcpStats.ReportSound: assumes an interval below 2^31 packets and a loss below 2^23 in it, where the signed numbers of the source hold them; from there on shifting the loss by 8 has no defined result.
- RtcpStats.JitterBounded: assumes transit differences below 2^28, beyond which 16 times the difference leaves the 32-bit counter.
- RingQueue.CycleBufferQueue.Wait: is the call without interference; what other threads do during its searches is in `RingRuns`, where a wait that times out is one search after another.
- Ring slots are byte strings in an array, not `buffer_ref` objects; that a slot is changed only through the ring is then not shown.
- Framing.UnpackInPlace: records a feedback record as an event; the hand-over to the feedback queue with its 16-byte slots is that of the ring and not connected here.
- Framing.L1Recv: an error also gives up the message being sent, as `Framing.StreamTx.L1Send` models for its own errors; the two are not connected. The emptied buffer after an error is what the assignment in the source is for; with a `malloc_buf`, as in the client, its operator (network/epoll/buffer.hpp:86-93) assigns a new temporary to its argument by calling itself and never returns.
- Fragmentation.UdpIo.L2RecvOne: promises the emptied buffer after closing with the same reservation, as do `Fragmentation.UdpIo.L2Close`, `L2Recv` and `L2Send`.
- Fragmentation.UdpIo.L2Send: a message given up at a short or failed write is dropped; that the source hands it back to the ring with `fail` is not connected here.
- MBuffer.MBuffer.Put: sizes are unbounded, where the source counts in 32 bits.
- RtpReceiver.RtpReceiver.HandleDatagram: the stored RTP header is sixteen given octets; header fields other than the sequence number and the CSRC count are not interpreted.
- RtpReceiver.RtpReceiver.FuA: says whether the statistics callback is called; the packets of `RtcpStats` are given and not connected to it.
- Tetris.Main.Play: ends when the given choices end or the game is over.
- Tetris cells are booleans instead of the characters 0 and 1; timing fields and printing are left out.
- JsonParser.JsaxWalk: callbacks are recorded in order whether or not a `New` callback returned a node, where the source sends the children of a refused node to a node that ignores them; item numbers are unbounded.
- DoubleBuffer.NewestNeverLost: takes `send` and `callback` as one piece each, as the unlocked `send` is not; `DoubleBufferRuns.GoodExactly` covers every interleaving of their steps.
- DoubleBufferRuns.GoodExactly: takes as one step each the setting of a flag bit, the test of `copyed()` in `send` with the copying of the frame and its length behind it, and `EmptyThisBuffer`.
- Iterator arithmetic one past the end, as `_matchres` does behind the last literal, is taken as index arithmetic.
- Sockets, epoll, asio, threads, clocks, logging, file output, RTSP texts, OMX and GL calls are outside the model.
- `subst` and the exception of `glex`, the RTT window, the PadInfo peeking inside `l2send` and `l2recv_one`, and the remaining snippets of the repository would add only easy members.
