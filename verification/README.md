# TestGear: the fault proxy, the simulated instrument and the reducers

TestGear puts VISA clients in front of a simulated instrument, with a proxy in
between that can drop, stall, skew, split and forge what the instrument says.
A conformance result is only as good as that bench, so this project states what
the bench does and proves it, for every stream, every chunking and every run.

- `HislipWire`, `HislipTracker`, `HislipStream`, `HislipBytes`: the HiSLIP message format
  (IVI-6.1 Table 2), the two header walkers, the tracker that follows a stream
  chunk by chunk and the rewriter that skews MessageIDs and splits replies. A
  buffer is read as frames and trailing bytes; `Parse` and `Unparse` are inverse
  to each other, and both walkers, `observe` and `rewrite` are proved against them.
  `HislipBytes` ties all of this, and the client, to messages spelled out in octets.
- `HislipClient`: the client that reassembles the rewritten stream, byte for byte
  off the wire, and its MessageID count (IVI-6.1 section 3.1.2).
- `Proxy`, `ProxyStream`, `ProxyQuery`: the server-to-client pump, what a whole reply
  stream is once it has been through it, and what a query makes of that.
- `RpcRecords`, `Vxi11Tracker`, `Vxi11Stream`, `Vxi11Words`: record marking (section
  11 of RFC 5531), the xid-to-procedure table, the VXI-11 reply rewriter, both over
  whole runs of a connection, and on records spelled out in words.
- `InstrumentSpec`, `InstrumentSrq`, `InstrumentMessages`, `InstrumentErrors`,
  `InstrumentReplies`, `InstrumentCommands`, `VirtualInstrument`: the IEEE 488.2
  instrument. The classes in
  `VirtualInstrument` are proved to do what the functions of `InstrumentSpec` say;
  `InstrumentCommands` proves what each command text does; the other four modules prove
  what those functions keep over whole runs.
- `Aggregate`, `Sweep`, `Outcomes`: the matrix join, the sweep over all scripts and
  the diff of two runs.

`Bytes` holds the octets, words and small sequence facts the others share.

## Where the code and its documentation disagree

The model follows the code.

- `Tracker::observe` keeps only what `scan` leaves over and forgets the remainder
  that `take_pending` put back (`server/src/hislip_fault.rs:145`, `:157-162`), while
  the field's comment (`:101-110`) asks for both. `CarryIsExact` proves the
  documented carry right for every chunking that splits no header,
  `ObserveIsExact` says exactly for which of those the code's carry is right,
  and `ForgottenHeader` is a family of streams for which it is not. The comment gives
  large replies as the reason for the count; `LongPayloadIsForgotten` shows that a
  payload over 131056 bytes is lost track of however it is read.
- The comment on `rewrite` (`:165-169`) says that a buffer that does not divide into
  whole messages is left alone. The header of a message still arriving is skewed
  all the same; `RewriteThenObserve` covers such buffers too.
- `Tracker::clear` (`:127-130`) leaves `pending` as it is.
- `Device::reset` leaves `last_mss` (`server/src/virtual_instrument.rs:202-208`), so
  "back to its power-on state" (`:275`) is not quite so: `ResetHidesAnEdge`, and
  `ResetIsSafe` for when it does not matter.
- `HislipClient::clear` runs the MessageID count on, where IVI-6.1 section 3.1.2
  starts it over: `IdAfterClear`.
- `Message::read_from` takes a payload cut short by the end of the stream for a
  whole one (`server/src/hislip/messages.rs:71`), so a connection lost inside a
  DataEND's payload answers the query with less than was sent: `LostConnection`.
- The sweep ends early with `failed or 1` (`run_all.py:332`); `failed` is never 0
  there, which `Sweep.Run` proves by returning `failed` in every case.

## Model

| member | source | states |
|---|---|---|
| HislipWire.HeaderRoundTrip | server/src/hislip_fault.rs:273-334 | sixteen bytes open a message with header h exactly when they are the bytes that `message` writes for h |
| HislipWire.ParseUnparse | server/src/hislip_fault.rs:273-282 | any list of messages, the last perhaps cut short, followed by bytes that are no header, is read back from its bytes, wherever they start |
| HislipWire.UnparseParse | server/src/hislip_fault.rs:292-334 | every buffer has such a reading, and encoding the reading gives the buffer back |
| HislipWire.Scan | server/src/hislip_fault.rs:292-311 | `scan` finds every header of the reading, in order, and as leftover exactly the payload bytes missing from the last |
| HislipWire.Headers | server/src/hislip_fault.rs:340-378 | `headers` finds the same headers, each at the offset its encoding has in the buffer |
| HislipWire.LocatedAt | server/src/hislip_fault.rs:340-378 | the offset of header i is the length of the i messages before it |
| HislipTracker.SplitFirstDataEnd | server/src/hislip_fault.rs:233-270 | the split fires exactly when a first DataEND longer than the cut is all there, and puts a Data and a DataEND in its place among the frames |
| HislipTracker.SplitReads | server/src/hislip_fault.rs:185-192 | the split buffer reads, from the same start, as the split frames and the same trailing bytes, and no length in it overflows that did not before |
| HislipTracker.SplitWellFormed | server/src/hislip_fault.rs:233-270 | a split leaves a proper reading with the same payload owed at its end |
| HislipTracker.RewriteAfterSplit | server/src/hislip_fault.rs:185-192 | re-entering `rewrite` on the split buffer starts at the same byte and finishes what the first call was asked to do |
| HislipTracker.Tracker.constructor | server/src/hislip_fault.rs:119-121 | nothing armed, nothing seen, nothing pending |
| HislipTracker.Tracker.Set | server/src/hislip_fault.rs:123-125 | only the armed faults change |
| HislipTracker.Tracker.Clear | server/src/hislip_fault.rs:127-130 | faults and log are emptied, payload in flight stays counted |
| HislipTracker.TakePending | server/src/hislip_fault.rs:112-116 | the consumed bytes are at hand and, with what stays pending, make up what was pending |
| HislipTracker.Tracker.Observe | server/src/hislip_fault.rs:137-163 | appends the reading's headers, tagged with the direction, after the payload owed; the other direction is untouched; the leftover becomes the new pending count |
| HislipTracker.Tracker.Rewrite | server/src/hislip_fault.rs:170-226 | the frames after the payload owed are split, skewed and broken as the armed faults say, everything before and after is kept byte for byte, a fault that hit is disarmed and no other is; None exactly when nothing applied; terminates |
| HislipTracker.Tracker.Patch | server/src/hislip_fault.rs:194-225 | the in-place loop leaves the encoding of the patched frames |
| HislipStream.CutReads | server/src/hislip_fault.rs:292-311 | a stream of messages cut at any point outside a header reads as the headers before it, with the payload beyond the cut owed |
| HislipStream.StretchReads | server/src/hislip_fault.rs:292-311 | so does any stretch of the stream between two such points, once the owed payload is skipped |
| HislipStream.CarryIsExact | server/src/hislip_fault.rs:101-110 | with the documented carry, after every chunk of every chunking that splits no header: the headers so far, once each and in order, and the payload owed |
| HislipStream.ObserveIsExact | server/src/hislip_fault.rs:137-163 | the code's carry knows the payload owed after every chunk if and only if no chunk ends before the payload owed at its start does; and then its log is exact too |
| HislipStream.ObserveWholeStream | server/src/hislip_fault.rs:137-163 | over a whole stream both log exactly its headers and end with nothing owed |
| HislipStream.ForgottenHeader | server/src/hislip_fault.rs:145-162 | a two-byte payload arriving a byte at a time hides the header of the message behind it |
| HislipStream.DirectionsAreIndependent | server/src/hislip_fault.rs:137-163 | however the two directions interleave, each is observed as if it were alone |
| HislipStream.RewrittenReads | server/src/hislip_fault.rs:170-226 | what a rewritten buffer reads as: the split and skewed frames with the same payload owed, or nothing once the prologue is broken |
| HislipStream.RewriteThenObserve | server/src/proxy.rs:150-161 | observing the rewritten chunk leaves the pending count that observing the original would have left, if and only if no prologue was broken or nothing was owed |
| HislipStream.SplitReplacesOne | server/src/hislip_fault.rs:229-270 | on whole messages the split fires if and only if some DataEND is longer than the cut; it replaces the first of them by Data and DataEND of the same id and control code, keeps the total payload, adds one header, and reads back |
| HislipClient.ReadWhole | server/src/hislip/messages.rs:39-85 | a whole message at the front of the wire is read as itself or refused for its size or type, and what follows is left |
| HislipClient.QueryAnswers | server/src/hislip/client.rs:247-288 | if message k is a DataEND and all before it are Data, each with the query's id and within the size limit, `query` returns exactly their payloads joined and has consumed the wire exactly through message k, whatever follows |
| HislipClient.QueryNeedsAnswer | server/src/hislip/client.rs:247-288 | `query` succeeds if and only if there is such a message, or it reads past all of them and what follows answers it |
| HislipClient.QueryIsAnswered | server/src/hislip/client.rs:247-288 | over messages alone it succeeds if and only if there is such a message |
| HislipClient.QueryStops | server/src/hislip/client.rs:247-288 | otherwise the first message it does not read past decides its error |
| HislipClient.SplitIsInvisible | server/src/hislip/client.rs:247-288 | for every stream, query and cut, of any make and size, `query` gets the same result from the split and the unsplit stream if and only if it does not get as far as the message split, or that message is within the size limit, or the cut is over it, or the message is its own and its second part is over it too |
| HislipClient.SplitStopsAlike | server/src/hislip/client.rs:247-288 | an answered query leaves both streams right behind the same DataEND, with the same messages to come, a later one split or not |
| HislipClient.OversizedReplyShows | server/src/hislip/client.rs:27 | on streams of any make, the inputs on which a split shows to `query`: a DataEND over the size limit is refused whole; with a cut within the limit it is refused for its id instead if that is not the query's, and accepted if its second part is within the limit too. The pump cannot make one: it splits only within a read of 65536 bytes |
| HislipClient.SkewIsNoticed | server/src/hislip/client.rs:258-264 | a query that would be answered fails with the wrong id if a skew that is not 0 mod 2^32 hits a message it reads, and is answered the same otherwise |
| HislipClient.LostConnection | server/src/hislip/client.rs:247-288 | cut anywhere, the stream fails the query if the DataEND's header is not all there, and otherwise answers with a prefix short by exactly the missing bytes |
| HislipClient.AwaitSkipsServiceRequests | server/src/hislip/client.rs:174-193 | any number of service requests are skipped, the last one's status byte is kept, and the first other message is the reply if its type is the expected one and an error if not |
| HislipClient.IdAdvances | server/src/hislip/client.rs:137-141 | the n-th id is 0xFFFFFF00 + 2n mod 2^32, by steps of 2 |
| HislipClient.IdLaws | server/src/hislip/client.rs:25 | no id is 0xFFFFFFFF, and two messages share an id if and only if a multiple of 2^31 messages lies between them |
| HislipClient.IdAfterClear | server/src/hislip/client.rs:206-213 | after a device clear the count is back at its start if and only if it had come round by itself |
| HislipClient.HislipClient.constructor | server/src/hislip/client.rs:126-133 | the first id is the initial one and no service request is stored |
| HislipClient.HislipClient.NextMessageId | server/src/hislip/client.rs:137-141 | returns the id due and advances by 2, wrapping |
| HislipClient.HislipClient.SendData | server/src/hislip/client.rs:144-152 | one DataEND with the given id and payload is sent |
| HislipClient.HislipClient.Write | server/src/hislip/client.rs:156-159 | the message sent carries the id of its place in the session |
| HislipClient.HislipClient.Trigger | server/src/hislip/client.rs:162-171 | so does a trigger |
| HislipClient.HislipClient.AsyncRequest | server/src/hislip/client.rs:174-193 | sends the request and makes of the asynchronous channel what `Await` does |
| HislipClient.HislipClient.TakeServiceRequest | server/src/hislip/client.rs:201-203 | gives the stored status byte out once |
| HislipClient.HislipClient.Clear | server/src/hislip/client.rs:206-213 | asks for a device clear and keeps the MessageID count |
| HislipClient.HislipClient.Remote | server/src/hislip/client.rs:216-226 | asks for remote or local and waits for its response |
| HislipClient.HislipClient.Status | server/src/hislip/client.rs:234-243 | quotes the id of the last message sent, or 0xFFFFFEFE before the first |
| HislipClient.HislipClient.Query | server/src/hislip/client.rs:247-288 | sends with the id due, and returns and consumes what `Collect` makes of the wire |
| Bytes.WordOctets | server/src/hislip_fault.rs:273-282 | four octets of a word, most significant first, in both directions |
| HislipBytes.QueryReadsOctets | server/src/hislip/client.rs:255-287 | of a message spelled out octet by octet, with its type a number: 7 with the query's id ends the answer with its payload and leaves what follows, 6 is collected, 13, 3 and 2 are an interruption, a device and a fatal error, another id is refused, any other known type is unexpected and 39 to 127 are not known |
| HislipBytes.QueryRefuses | server/src/hislip/messages.rs:57-62 | a message over 16 MiB is refused |
| HislipBytes.BadPrologue | server/src/hislip/messages.rs:47-52 | what does not open with HS is refused |
| HislipBytes.AsyncReadsOctets | server/src/hislip/client.rs:174-193 | on the other channel a message of type 20 is a service request and leaves its control code, and any other is the reply or an error |
| HislipBytes.SentOctets | server/src/hislip/client.rs:137-243 | the octets of a session's n-th command and trigger, with the id 0xFFFFFF00 + 2n, and of the requests on the other channel |
| HislipBytes.SkewOctets | server/src/hislip_fault.rs:194-213 | of a message spelled out, a skew is added to octets 4 to 7 if the octet at 2 is 7 or 6 as armed, to nothing else, and is disarmed when it was |
| HislipBytes.BreakOctets | server/src/hislip_fault.rs:214-218 | a broken prologue turns the first octet into X and is disarmed |
| HislipBytes.SplitOctets | server/src/hislip_fault.rs:185-192 | a split turns a 7 with more than the cut into a 6 with the cut and a 7 with the rest, and leaves any other message and itself alone |
| HislipBytes.ObserveOctets | server/src/hislip_fault.rs:137-163 | of a message cut short in its payload the log gets the header's numbers and the direction's count what is missing |
| Proxy.WriteChunk | server/src/proxy.rs:183-200 | dribbled or not, exactly the chunk is written; the delays are not modelled |
| Proxy.Pass | server/src/proxy.rs:150-161 | one chunk is rewritten by the first tracker with anything to say and then observed as the client receives it |
| Proxy.PumpToClient | server/src/proxy.rs:110-169 | the loop sends, chunk by chunk, what the two limits and the trackers leave, and ends, drops or stalls accordingly |
| Proxy.PumpWithin | server/src/proxy.rs:110-163 | whatever the trackers, chunks that cross no limit go through them as they would without limits |
| Proxy.DropCutsRaw | server/src/proxy.rs:123-135 | whatever the trackers, the first chunk to cross the drop limit goes out as the server sent it up to the limit, neither rewritten nor observed, with what is armed left armed, behind all that the earlier chunks became |
| Proxy.StallCutsRaw | server/src/proxy.rs:139-148 | the same for the first chunk to cross the stall limit that does not cross the drop limit |
| Proxy.LimitsNotReached | server/src/proxy.rs:110-163 | if no chunk crosses a limit the limits make no difference |
| Proxy.DropIsChunkIndependent | server/src/proxy.rs:123-135 | with a drop limit the client receives the first min(limit, total) bytes whatever the chunks and with or without dribble; the fault fires if and only if the total exceeds the limit |
| Proxy.StallIsChunkIndependent | server/src/proxy.rs:139-148 | the same for a stall limit |
| Proxy.BothLimits | server/src/proxy.rs:111-148 | with both, and reads of 1 to 65536 bytes, the result is independent of the chunking if and only if the drop limit is not the larger, or the stream does not exceed it, or it is larger by at least the read buffer |
| ProxyStream.SentReshapes | server/src/hislip_fault.rs:170-226 | what the faults make of a chunk's frames is those frames with ids changed, only if a skew is armed, and DataENDs split |
| ProxyStream.SkewLands | server/src/hislip_fault.rs:198-205 | an armed DataEND skew hits the first DataEND that comes by, and stays armed until one does |
| ProxyStream.ReshapedPayload | server/src/hislip_fault.rs:170-226 | no payload byte is lost, added or moved by that |
| ProxyStream.StreamThroughProxy | server/src/proxy.rs:110-169 | over a whole reply stream, in any chunking the tracker can follow, with any skews and splits armed: the client receives whole messages, the server's own but so reshaped; the log is exactly their headers; nothing is owed at the end |
| ProxyStream.TidyIsCovered | server/src/hislip_fault.rs:137-163 | those chunkings are exactly the ones in which no chunk is empty, no header is split and no chunk ends before the payload owed at its start, for which ObserveIsExact has the pending count right |
| ProxyStream.FollowedIfShort | server/src/proxy.rs:111 | with reads of at most 65536 bytes there is a chunking of a reply stream that the tracker can follow if and only if no payload is over 131056 bytes, a full read behind the header and another |
| ProxyStream.LongPayloadIsForgotten | server/src/hislip_fault.rs:145-162 | with a longer payload, in every chunking by such reads that splits no header, the tracker at some point forgets payload still to come |
| ProxyQuery.ReshapingIsInvisible | server/src/hislip/client.rs:247-288 | reshaping that keeps ids, with any number of splits, does not change the answer to a query as long as the first DataEND is within the size limit |
| ProxyQuery.SplitThroughProxy | server/src/proxy.rs:110-169 | with a split armed and nothing else the client receives the server's messages, at most one of them split, and that one longer than the cut |
| ProxyQuery.QueryThroughSplit | server/src/proxy.rs:110-169 | a query through the pump with a split armed gets the answer it would have got without the proxy, from every reply, for every cut and for every way of reading it in 1 to 65536 bytes that the tracker can follow |
| ProxyQuery.SplitGoesUnnoticed | server/src/hislip/client.rs:247-288 | as a fact about the functions alone, were chunks of any size read: unnoticed in every chunking the tracker can follow, if and only if the query does not get as far as the first DataEND longer than the cut or would make the same of it in two parts; the failing half needs a read of over 16 MiB, which the pump does not make |
| ProxyQuery.SplitCorrupts | server/src/hislip_fault.rs:145-192 | why every payload has to be covered: a payload that comes in two chunks after its header, the second reading like a DataEND, is split in the middle, and the query is answered with other bytes than the server sent; within one read buffer these are chunks the pump can read |
| ProxyQuery.QueryThroughSkew | server/src/hislip/client.rs:258-264 | a query through the proxy with a DataEND skew other than 0 armed fails whenever it would have been answered |
| RpcRecords.WholeIsExact | server/src/vxi11_fault.rs:221-241 | a buffer is taken for records if and only if it is a nonempty concatenation of records of nonzero length, and then for those |
| RpcRecords.WholeRecords | server/src/vxi11_fault.rs:221-241 | the loop returns the spans of those records or None |
| RpcRecords.SpansTile | server/src/vxi11_fault.rs:221-241 | span i starts where the i records before it end, so the spans tile the buffer |
| RpcRecords.WriteReads | server/src/vxi11_fault.rs:310-328 | a word written is read back and every word clear of it is unchanged |
| RpcRecords.WriteBack | server/src/vxi11_fault.rs:322-328 | writing the old word back restores the body |
| Vxi11Tracker.InsertedIsLast | server/src/vxi11_fault.rs:126-139 | the table maps an xid to a procedure if and only if that was the last inserted for it |
| Vxi11Tracker.CallsAreLast | server/src/vxi11_fault.rs:126-139 | after any run of observed buffers the table maps an xid to the procedure of the last well-formed call seen with it, and knows no other xid |
| Vxi11Tracker.StaleXidDiffers | server/src/vxi11_fault.rs:198 | the stale xid is never the xid it was made from, and gives it back by the same mask |
| Vxi11Tracker.StaleReplyIsForeign | server/src/vxi11_fault.rs:193-202 | the inserted reply carries that xid and not the xid of the reply behind it |
| Vxi11Tracker.FrameReadsBack | server/src/vxi11_fault.rs:221-264 | `whole_records` reads a framed body back as one last fragment if and only if it has 1 to 2^31-1 bytes, and refuses an empty one |
| Vxi11Tracker.PatchIsExact | server/src/vxi11_fault.rs:169-191 | a patched reply keeps mark and length; the error and size words are the armed ones where the faults hit and every other aligned word, the xid among them, is the server's |
| Vxi11Tracker.OthersUntouched | server/src/vxi11_fault.rs:150-216 | a reply with an unknown xid, or to a procedure nothing is armed for, goes through byte for byte |
| Vxi11Tracker.RestorePatch | server/src/vxi11_fault.rs:169-191 | putting the patched words back restores the reply |
| Vxi11Tracker.RewriteIsErasable | server/src/vxi11_fault.rs:150-216 | dropping the inserted records and putting the words back restores every record of the buffer |
| Vxi11Tracker.RewriteKeepsFraming | server/src/vxi11_fault.rs:150-216 | something is returned if and only if the buffer is whole records and a fault hits one; it is again whole records, and erasing the changes gives the input bytes |
| Vxi11Tracker.ErrorOnlyWhereAimed | server/src/vxi11_fault.rs:169-183 | an error is written only into a reply whose xid was last called for the targeted procedure |
| Vxi11Stream.ErrorOnlyWhereCalled | server/src/proxy.rs:74-90 | so it is however calls and replies interleave over a connection, with other faults armed and rewriting going on |
| Vxi11Stream.ErrorArmed | server/src/vxi11_fault.rs:169-183 | after any run the error is disarmed if and only if it was to be used once and some buffer of whole records before held a reply it was for; code and size fault are as they were |
| Vxi11Stream.ErrorWordsSent | server/src/vxi11_fault.rs:150-216 | over any run, of every reply sent on the error word is the armed code if the reply is one it is for and, when used once, no earlier buffer of whole records held one, and the server's otherwise |
| Vxi11Stream.RewrittenAt | server/src/vxi11_fault.rs:160-209 | record k of a buffer goes on as what that record alone becomes, between what the records before and after it become |
| Vxi11Stream.PumpSends | server/src/proxy.rs:110-169 | the pump sends on the replies of the connection, each rewritten with what the ones before have left armed |
| Vxi11Stream.RepliesErase | server/src/vxi11_fault.rs:150-216 | over a whole reply stream through the pump, what is sent of each chunk erases to exactly the chunk received |
| Vxi11Tracker.Tracker.constructor | server/src/vxi11_fault.rs:99-101 | no calls known, nothing armed, nothing seen |
| Vxi11Tracker.Tracker.Set | server/src/vxi11_fault.rs:103-105 | only the armed faults change |
| Vxi11Tracker.Tracker.Clear | server/src/vxi11_fault.rs:111-115 | all three are emptied |
| Vxi11Tracker.Tracker.ObserveCalls | server/src/vxi11_fault.rs:126-139 | the table takes in the buffer's calls in order, the log their arguments; a buffer that is not whole records changes nothing |
| Vxi11Words.CallFiled | server/src/vxi11_fault.rs:267-274 | of a call spelled out word by word, the sixth word is filed under the first and every other xid stays as it was, whatever the program, version and arguments |
| Vxi11Words.NoCallFiled | server/src/vxi11_fault.rs:267-274 | a record under 24 bytes, or whose second word is not 0, files and logs nothing |
| Vxi11Words.WriteLogged | server/src/vxi11_fault.rs:282-296 | what is logged of a device_write (11), word by word, and nothing if credential or verifier is not empty |
| Vxi11Words.ReadLogged | server/src/vxi11_fault.rs:297-304 | and of a device_read (12), with the size and the low octet of the termination word |
| Vxi11Words.ErrorWord | server/src/vxi11_fault.rs:169-183 | of a reply spelled out, the error fault sets the seventh word if the first was called for the armed procedure and is then disarmed unless told not to be; otherwise nothing is changed |
| Vxi11Words.SizeWord | server/src/vxi11_fault.rs:185-191 | the size fault sets the tenth word of a reply to create_link (10) |
| Vxi11Words.StaleWords | server/src/vxi11_fault.rs:193-202 | the stale reply in front has nine words: its xid, 1 and seven zeros, under the mark of one last fragment |
| Vxi11Words.StaleXidBits | server/src/vxi11_fault.rs:198 | its xid is the other's with exactly the bits of 0x5A5A5A5A flipped |
| Vxi11Tracker.Tracker.RewriteReplies | server/src/vxi11_fault.rs:150-216 | the loop returns the encoding of the rewritten records, or None, and disarms what hit |
| Vxi11Tracker.Tracker.RewriteOne | server/src/vxi11_fault.rs:160-209 | its body writes one reply, a stale one in front if that fault hits, the original mark kept |
| InstrumentSrq.PowerOnSettled | server/src/virtual_instrument.rs:238-258 | a bus just made has its line down, its edge memory exact, and nothing queued, so what every run keeps holds in every state that can be reached |
| InstrumentSrq.StepKeepsSrq | server/src/virtual_instrument.rs:290-306 | every operation keeps: the SRQ line is up exactly when some status byte has bit 6, and a set bit 6 is in the edge memory; all but a control reset keep the edge memory exact |
| InstrumentSrq.RunKeepsSrq | server/src/virtual_instrument.rs:423-601 | so does every run |
| InstrumentSrq.RunFromPowerOn | server/src/virtual_instrument.rs:238-601 | from power-on, after any operations, the SRQ line is up exactly when some status byte has bit 6, and no device has come or gone |
| InstrumentSrq.StepCounts | server/src/virtual_instrument.rs:290-306 | an operation broadcasts once for every rising edge that stale memory did not hide, and exact memory hides none |
| InstrumentSrq.RunCounts | server/src/virtual_instrument.rs:290-306 | over every run broadcasts and hidden edges together are the rising edges; without a control reset nothing is hidden |
| InstrumentSrq.ResetHidesAnEdge | server/src/control.rs:155-167 | after a control reset the next service request of a device goes unannounced if and only if its edge memory was set when it was reset |
| InstrumentSrq.ResetIsSafe | server/src/control.rs:155-167 | after a control reset every later service request is announced, in every run without another, if and only if no edge was remembered when it came; from power-on, or any state without an unsafe reset behind it, if and only if the SRQ line was down |
| InstrumentSrq.SafeRunCounts | server/src/virtual_instrument.rs:276-306 | a run all of whose resets come while the line is down broadcasts exactly once for every rising edge |
| InstrumentMessages.PiecesAssemble | server/src/virtual_instrument.rs:429-453 | a message in pieces, none but the last ended by EOI or newline, leaves the bus exactly as one write of the whole |
| InstrumentMessages.NewlinesDoNotMatter | server/src/virtual_instrument.rs:448-451 | newlines at the end of a message change nothing |
| InstrumentMessages.MessageJoins | server/src/virtual_instrument.rs:448-453 | executing a;b is executing a and then b |
| InstrumentMessages.TwoUnitsJoin | server/src/virtual_instrument.rs:423-455 | writing a;b once leaves devices and SRQ line as writing a and then b with EOI, with at most as many broadcasts |
| InstrumentMessages.UnitsJoin | server/src/virtual_instrument.rs:423-455 | the same for any number of units |
| InstrumentMessages.ReadOnce | server/src/virtual_instrument.rs:457-513 | one read takes a prefix of the queue no longer than asked, with END exactly when that empties it; it holds the EOS character at most as its last, and stops short only there |
| InstrumentMessages.ReadsConserve | server/src/virtual_instrument.rs:457-513 | over any reads, with any sizes and EOS settings, results and remaining queue make up the original queue, nothing else of the device changes, and n reads of positive size leave at most what exceeds n bytes |
| InstrumentMessages.EndMarksTheLastByte | server/src/virtual_instrument.rs:505-509 | among them, a read of a queue that holds something reports END if and only if it empties it |
| InstrumentErrors.EventsAccount | server/src/virtual_instrument.rs:144-160 | whatever is raised, asked for and cleared, the queue holds at most 16 entries, and the entries given out and queued stand in order for every error raised: each for one, or a marker for a run of more than one |
| InstrumentErrors.QueueOfSixteen | server/src/virtual_instrument.rs:144-160 | errors nobody asks for: up to 16 are kept as they came, and of more the first 15 and one marker -350 |
| InstrumentErrors.UnitNotes | server/src/virtual_instrument.rs:309-413 | every program message unit works on the device's queue in that way |
| InstrumentErrors.QueueIsAccountable | server/src/virtual_instrument.rs:144-160 | so does every run of every operation |
| InstrumentErrors.MarkerMeansLoss | server/src/virtual_instrument.rs:144-160 | in every run an entry is -350 if and only if it stands for more than one error, so none is lost without a marker |
| InstrumentReplies.ErrorQueryAnswers | server/src/virtual_instrument.rs:380-386 | a unit takes an entry from the error queue exactly when it is an error query and there is one, and what it appends to the output is that entry, the oldest, word for word, or no error |
| InstrumentReplies.AnsweredAreGiven | server/src/virtual_instrument.rs:380-386 | over any events, the entries accounted for as answered are exactly those given to the queries since the queue was last cleared, in order |
| InstrumentReplies.UnitsKeep | server/src/virtual_instrument.rs:448-453 | a whole message says its replies in order, its error queries answered by what the queue gave |
| InstrumentReplies.ErrorsReachTheReader | server/src/virtual_instrument.rs:309-513 | over every run, what has been read since the output was last wiped and what is still queued are all replies since, in order; the replies to error queries are, word for word, what the error queue gave out; and those since it was last cleared are, in order of arrival and with a marker for every loss, the first of the errors raised since |
| InstrumentErrors.RaiseSetsItsBit | server/src/virtual_instrument.rs:144-160 | codes -299 to -200 set the execution-error bit and the others the command-error bit; no other bit changes either way |
| VirtualInstrument.Device.constructor | server/src/virtual_instrument.rs:102-122 | the power-on state |
| VirtualInstrument.Device.Stb | server/src/virtual_instrument.rs:126-141 | the status byte of the specification, field by field |
| VirtualInstrument.Device.Error | server/src/virtual_instrument.rs:144-160 | raises an error: queue or overflow marker, and event bit |
| VirtualInstrument.Device.Reply | server/src/virtual_instrument.rs:162-165 | appends a line to the output queue |
| VirtualInstrument.Device.ClearIo | server/src/virtual_instrument.rs:170-173 | empties input and output only |
| VirtualInstrument.Device.SetResponse | server/src/virtual_instrument.rs:176-186 | sets or removes a canned response under its normalised query |
| VirtualInstrument.Device.Reset | server/src/virtual_instrument.rs:202-208 | clears queues, errors, event and user bits; enables, responses and edge memory stay |
| VirtualInstrument.VirtualInstrument.constructor | server/src/virtual_instrument.rs:238-258 | a bus of devices just powered on |
| VirtualInstrument.VirtualInstrument.AnyRequesting | server/src/virtual_instrument.rs:305 | whether any status byte has bit 6 |
| VirtualInstrument.VirtualInstrument.UpdateSrq | server/src/virtual_instrument.rs:290-306 | the whole new bus after SRQ is looked at, every other device unchanged |
| VirtualInstrument.VirtualInstrument.ResetDevices | server/src/virtual_instrument.rs:276-281 | every device reset and the line down, edge memory untouched |
| VirtualInstrument.VirtualInstrument.RunCommand | server/src/virtual_instrument.rs:326-413 | each built-in command leaves the device as specified |
| VirtualInstrument.VirtualInstrument.Execute | server/src/virtual_instrument.rs:309-413 | one unit changes the addressed device as specified and nothing else on the bus |
| VirtualInstrument.VirtualInstrument.ExecuteUnits | server/src/virtual_instrument.rs:448-453 | the units of a message take effect one after the other |
| VirtualInstrument.VirtualInstrument.Write | server/src/virtual_instrument.rs:423-455 | accumulates, and executes once terminated; a failed write and an absent device change nothing |
| VirtualInstrument.VirtualInstrument.HowMany | server/src/virtual_instrument.rs:499-504 | how far a read goes: the first EOS character, the asked size or the end |
| VirtualInstrument.VirtualInstrument.Read | server/src/virtual_instrument.rs:457-513 | bytes, END and the whole new bus; silence when the queue is empty |
| VirtualInstrument.VirtualInstrument.DeviceClear | server/src/virtual_instrument.rs:515-522 | queues emptied, the clear counted, SRQ looked at |
| VirtualInstrument.VirtualInstrument.Trigger | server/src/virtual_instrument.rs:524-534 | the trigger counted and ignored with -211 |
| VirtualInstrument.VirtualInstrument.SerialPoll | server/src/virtual_instrument.rs:589-601 | the forced or the real status byte; a real poll brings edge memory and line up to date |
| VirtualInstrument.VirtualInstrument.SetEos | server/src/virtual_instrument.rs:649-651 | only the EOS setting changes |
| VirtualInstrument.VirtualInstrument.SetStb | server/src/control.rs:204-221 | pushes status bits and lets SRQ follow |
| VirtualInstrument.VirtualInstrument.SetResponse | server/src/control.rs:196-200 | reaches the addressed device only |
| VirtualInstrument.VirtualInstrument.SetBigReply | server/src/control.rs:201-203 | reaches the addressed device only |
| InstrumentCommands.PollBits | server/src/virtual_instrument.rs:126-141 | bit by bit of the byte a poll returns: 0x10 a waiting reply, 0x20 an enabled event, 0x40 an enabled other bit, or the user's own; the remaining bits are the user's; nothing else changes |
| InstrumentCommands.PollOtherwise | server/src/virtual_instrument.rs:589-593 | an injected byte is returned as it is, and nothing at an address nobody has |
| InstrumentCommands.Numerals | server/src/virtual_instrument.rs:345-366 | numbers below 1000 are written in the decimal digits one expects |
| InstrumentCommands.NumeralsRead | server/src/virtual_instrument.rs:350-361 | and one to three digits are read as what they are worth, if that is below 256 |
| InstrumentCommands.NumbersRead | server/src/virtual_instrument.rs:350-361 | nothing but digits and a plus sign is a number; a sign or zeros in front make no difference |
| InstrumentCommands.RegisterReadsBack | server/src/virtual_instrument.rs:345-366 | what a register's answer says reads back as the register |
| InstrumentCommands.ErrorTexts | server/src/virtual_instrument.rs:380-386 | the text of an error answer for each code the instrument uses |
| InstrumentCommands.NewlineEnds | server/src/virtual_instrument.rs:432-451 | a newline at the end of a write does what EOI does |
| InstrumentCommands.SreSets | server/src/virtual_instrument.rs:350-353 | writing *SRE and a number, in capitals or not, sets the service request enables to it and changes nothing else; no number below 256 is error -222 and the execution bit |
| InstrumentCommands.EseSets | server/src/virtual_instrument.rs:358-361 | the same of *ESE and the event enables |
| InstrumentCommands.SreAnswers | server/src/virtual_instrument.rs:354-357 | *SRE? answers with them |
| InstrumentCommands.EseAnswers | server/src/virtual_instrument.rs:362-365 | *ESE? likewise |
| InstrumentCommands.EsrAnswers | server/src/virtual_instrument.rs:366-371 | *ESR? answers with the event register and clears it |
| InstrumentCommands.StbAnswers | server/src/virtual_instrument.rs:346-349 | *STB? answers with the byte of PollBits |
| InstrumentCommands.ClsClears | server/src/virtual_instrument.rs:338-345 | *CLS empties error queue, event and user bits and keeps output and enables |
| InstrumentCommands.RstResets | server/src/virtual_instrument.rs:337 | *RST empties the output too |
| InstrumentCommands.OpcMarks | server/src/virtual_instrument.rs:372 | *OPC sets exactly bit 0 of the event register |
| InstrumentCommands.TestSrqMarks | server/src/virtual_instrument.rs:397-399 | TEST:SRQ sets exactly bit 0 of the user's |
| InstrumentCommands.TrgRefused | server/src/virtual_instrument.rs:376-379 | *TRG is counted and is error -211 with the execution bit |
| InstrumentCommands.IdnAnswers | server/src/virtual_instrument.rs:336 | *IDN? answers with the identity |
| InstrumentCommands.OpcAnswers | server/src/virtual_instrument.rs:373 | *OPC? answers 1 |
| InstrumentCommands.TstAnswers | server/src/virtual_instrument.rs:374 | *TST? answers 0 |
| InstrumentCommands.WaiWaits | server/src/virtual_instrument.rs:375 | *WAI changes nothing |
| InstrumentCommands.SilentIsSilent | server/src/virtual_instrument.rs:400-403 | TEST:SILENT? is accepted and not answered |
| InstrumentCommands.BigAnswers | server/src/virtual_instrument.rs:391-396 | TEST:BIG? answers with the ten digits in turn to the length set |
| InstrumentCommands.ErrorQueried | server/src/virtual_instrument.rs:380-386 | the error query in its three spellings gives out the oldest error, or no error |
| InstrumentCommands.UnknownHeader | server/src/virtual_instrument.rs:404-410 | any other header is error -113, quoting it, with the command bit |
| InstrumentCommands.CannedAnswer | server/src/virtual_instrument.rs:176-186 | a canned answer is given to every spelling of its query, before any command of that name, until it is removed |
| InstrumentCommands.ClearDiscards | server/src/virtual_instrument.rs:515-522 | a device clear discards a half-received message and the output and keeps the rest; the next message is taken by itself |
| InstrumentCommands.ResetSeen | server/src/control.rs:155-167 | after a control reset a device polls as 0, has nothing to read, no error and nothing under way, and keeps enables, canned answers and reply length |
| InstrumentCommands.PowerOnSeen | server/src/virtual_instrument.rs:102-122 | what can be seen of a device just made |
| InstrumentCommands.TriggerAndBits | server/src/virtual_instrument.rs:524-534 | a bus trigger does what *TRG does; bits pushed by the control channel are the user's |
| Aggregate.Build | testgear/aggregate.py:259-295 | the loops build the matrix of the specification: one row for each first result with its key, a cell for each column |
| Aggregate.ComparedColumns | testgear/aggregate.py:85-90 | the compared columns are those that say ok, and those with results that say nothing valid |
| Aggregate.JoinedOn | testgear/aggregate.py:267-275 | a result is joined on its key, or on its name if it has none |
| Aggregate.FirstsInOrder | testgear/aggregate.py:262-276 | the rows are headed, in source order, by exactly those results whose key has not come before |
| Aggregate.RowNamed | testgear/aggregate.py:276-289 | a row is called after the first result with its key |
| Aggregate.RowsAreDistinct | testgear/aggregate.py:269-271 | no two rows have the same key |
| Aggregate.RowForEachKey | testgear/aggregate.py:266-276 | there is a row for a key if and only if some column has a result for it |
| Aggregate.CellsAligned | testgear/aggregate.py:266-277 | cell i of a row is the last result that column i has for the key, and missing exactly when it has none |
| Aggregate.UniqueFailuresByColumn | testgear/aggregate.py:200-224 | per column, the rows that fail there and pass in all the others; no entry for a column without such rows |
| Aggregate.DiffersMeans | testgear/aggregate.py:165-176 | a row differs if and only if two compared columns show different outcomes, a missing one counting as its own |
| Aggregate.SkippedMeans | testgear/aggregate.py:179-180 | all skipped if and only if some column is compared and every one says SKIP |
| Aggregate.FailuresMean | testgear/aggregate.py:200-241 | fails alone: FAIL there and PASS in all of the at least one others; shared: FAIL in all of at least two |
| Aggregate.UniqueFailureDiffers | testgear/aggregate.py:165-224 | a unique failure is a disagreement, is not shared, and is blamed on one column only |
| Aggregate.SharedIsNoDisagreement | testgear/aggregate.py:165-241 | what all compared columns fail, or all skip, is never a disagreement |
| Aggregate.DeadColumnLaw | testgear/aggregate.py:165-241 | a column that is not ok, inserted anywhere and with any results, leaves the keys that disagree, are skipped by all, fail in all, or fail in one column as they were; columns after it move up by one and it is blamed for nothing |
| Sweep.StreakIsNearest | run_all.py:308-315 | the counter is positive if and only if the nearest earlier script that was not killed was unreachable |
| Sweep.GivesUpOnCodes | run_all.py:293-316 | in exit codes: after a script that left with 3, or not with 0 and the target gone, and any killed ones, another such script gives up, and no other does |
| Sweep.CountersMean | run_all.py:248-298 | the counters in endings: hung after the summary, out of time, any exit code but 0 |
| Sweep.Run | run_all.py:222-342 | without --keep-going the sweep stops exactly at the first unreachable script whose nearest earlier script not killed was unreachable; failed is killed plus nonzero exits among the scripts run; the result is failed, and 0 if and only if every script ran and exited 0 |
| Outcomes.EveryKeyOnce | tools/outcomes.py:155-163 | whatever the outcomes, a key of either run is in exactly one of the five lists, or answered the same twice and is in none |
| Outcomes.ListedWhere | tools/outcomes.py:155-163 | in which list for every pair of outcomes; a key only of the later run is new and one only of the earlier run is gone |
| Outcomes.SizeIsDiffering | tools/outcomes.py:155-164 | the lists together count the keys that answered differently, and are empty if and only if the runs agree |
| Outcomes.MirrorLaw | tools/outcomes.py:44 | swapping the runs exchanges regressed with fixed and new with gone if and only if no outcome besides PASS, FAIL and SKIP stands against a PASS |
| Outcomes.MirrorBreaks | tools/outcomes.py:44 | an ERROR against a PASS counts as fixed one way and not as regressed the other |
| Outcomes.ChangesAreSymmetric | tools/outcomes.py:143-185 | the count of changes does not depend on which run is the earlier one |
| Outcomes.Compare | tools/outcomes.py:143-185 | the loop diffs exactly the shared labels; changed is the number of label and key pairs that answer differently, and 0 if and only if the runs agree on every shared label |
| Outcomes.MatrixAgreesWithDiff | tools/outcomes.py:109-114 | for two columns that ran, the matrix disagrees on exactly the keys the diff lists, if and only if no check that one of them lacks answers "-" in the other |

## Left out

- HislipWire.Scan: requires the end of the last message to fit in 64 bits, because past that a release build wraps round and a debug build panics; HislipTracker.Tracker.Observe inherits the bound.
- HislipTracker.SplitFirstDataEnd: requires the same of the ends it adds up, counted from the front of the buffer; HislipTracker.Tracker.Rewrite inherits that while a split is armed, and Proxy.PumpToClient both bounds.
- HislipStream.CarryIsExact: speaks of chunkings that split no header, because neither carry remembers half a header.
- ProxyStream.StreamThroughProxy: no prologue is broken and the chunking is one the tracker can follow, because otherwise it loses its place, as RewriteThenObserve and SplitCorrupts say; with reads of 65536 bytes that leaves out every stream with a payload over 131056 bytes (FollowedIfShort, LongPayloadIsForgotten), of which QueryThroughSplit and QueryThroughSkew say nothing either.
- Vxi11Stream.RepliesErase: the connection has no HiSLIP tracker, because a port speaks one protocol.
- Proxy.DropIsChunkIndependent: no tracker is present and the limit stands alone, because the limits count the server's bytes and not the rewritten ones; both limits together are BothLimits.
- Outcomes.MirrorLaw: its condition is about the outcomes on each side of a PASS, because the mirror fails for others; runs with PASS, FAIL and SKIP only always meet it.
- One `pending` pair is shared by every connection of a proxy; one connection is modelled.
- Sockets, tasks, the client-to-server half of the pump, latency and dribble delays: the order and content of the bytes is modelled, not their timing.
- The handshake in `connect`, write errors of the client's sockets and running out of memory while reading a payload.
- The fault knobs' storage and the injected read failure and read delay: the knobs are inputs of each call.
- REN, remote, local and lockout flags, IFC, the local-state penalty, the silence setting and the log of bus events: they reach none of the modelled results, and silence stays as it was at power-on.
- Text outside ASCII: messages are taken as ASCII, so trimming, upper case and the lossy UTF-8 reading are those of ASCII.
- The order of a set of labels or keys in the printed diff, its wording, and the Markdown and HTML of the matrix.
- The rule, source and script fields of a row, which are copied from its results, and `merge`, which renames them.
- The regular expressions over a script's output, which are given as their answer, the counts of skipped checks and the process handling of `run_script`.
- The HiSLIP and VXI-11 servers, the lock registry and the checks themselves.
