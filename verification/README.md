# PPPoAT in Dafny

PPPoAT is a tunnel: an interface module produces packets, a transport module carries them to the
other host, and a pipeline of modules connects the two. This project models the parts of it whose
correctness spans several functions or a whole run, and proves what they are for.

* **HTTP transport** (`HttpText`, `HttpWire`, `HttpTransport`, `HttpFlow`, `HttpProtocol`, `HttpTheorems`,
  `HttpModule`, over `CText` and `Base64`). A client and a server share two connections.
  `HttpText` has the text of every message and the search loop that takes it apart again, and
  `HttpWire` writes the messages out character by character;
  `HttpTransport` has each handler as a function on the state of one endpoint; `HttpProtocol` joins
  two endpoints and two byte streams into a state machine with the handlers as atomic steps, with an
  invariant kept by every step; `HttpTheorems` derives from it that the transport is a reliable FIFO
  channel in each direction, that each connection has exactly one token, and that everything drains.
  `HttpModule.TpHttp` is the module itself, an object updated in place, each method proved equal to
  the function of the same name.
* **Base64** (`Base64`). Encoder, decoder and validator over buffers, against section 4 and section
  3.5 of RFC 4648.
* **List, queue, packet pool** (`List`, `Queue`, `Packets` over the ledger of `Pool`, with `PacketKind`), and the
  **hand-off** of received packets between the two threads of the XMPP transport (`Handoff`).
* **Pipeline** (`Pipeline`): building, direction inversion, routing, ownership; and the HTTP transport as
  one of its modules (`HttpInPipeline`).
* **Configuration** (`Conf` over `ConfStore`): a list of reference-counted records that behaves as a
  map; and its **sources** (`ConfSources` over `ConfSyntax`): command line and file, and which wins.

Faults of the source, such as a failing assertion, a NULL result of a C string search that is used,
or a copy past the end of a buffer, are values of type `Fault`; that a run ends in no fault is part of
what is proved. Imperative parts are classes and methods with loops, each proved against a function;
the laws are lemmas about these functions.

`dafny verify dfyconfig.toml` checks the whole project.

## What the model brings out

* A plain HTTP message fits the 2048-byte buffers exactly for packets of at most 1503 bytes
  (`HttpText.NormalFits`); the module's MTU is 1500. In the side channel a client's messages fit
  exactly when `http.remote` has at most 1873 characters (`HttpText.ClientFits`).
* A packet size crosses the side channel modulo 2^32 (`HttpText.SizeRoundTrip`).
* An empty packet in the side channel is delivered but not answered as data, so the token does not
  come back, in either direction (`HttpTheorems.AnsweredIffNonEmpty`,
  `HttpTheorems.ServerAnsweredIffNonEmpty`). Interfaces emit no empty packet
  (`src/modules/if_fd.c:136-139`), so `HttpTransport.Carried` asks for at least one byte there.
* The decoder, which never looks at the padding, accepts exactly the texts that the validator accepts
  (`Base64.DecodableIffValid`).
* `src/conf.h:89-90` says the generation is increased with every update of the store; `src/conf.c:137-143`
  increases it on every drop, also of a key that is absent. The model follows the code.
* `src/conf.h:34-35` restricts the characters of a key; no code checks it, and the model does not either.
* A line of a configuration file is read as one line exactly when it has at most 255 characters with
  its newline (`ConfSyntax.ReadsWholeLines`). A longer one is read as several, and the model does the
  same, so nothing is assumed about the length of lines.
* An entry whose key starts with `[` and whose value ends with `]` is read as a section, and one whose
  key starts with `#` as a comment; every other entry survives writing and reading
  (`ConfSyntax.EntryText`).

## Model

| member | source | states |
|---|---|---|
| HttpTheorems.Tunnel | src/modules/tp_http.c:539-598 | Under every schedule no handler faults, and in each direction the packets sent are those taken, then those in the receive queue, then at most one in transit, then those in the send queue, byte for byte and in order |
| HttpTheorems.RefinesFifo | src/modules/tp_http.c:711-728 | Every enabled step of the two-endpoint system is a step of two FIFO channels: a send appends, a take yields the oldest packet not yet taken, anything else changes neither |
| HttpTheorems.OneToken | src/modules/tp_http.c:581-594 | Under every schedule, on each open connection exactly one of sender ready, data under way, reply under way holds; ready implies an empty send queue; data under way is exactly one whole message, so no two messages merge |
| HttpTheorems.OwnConnectionOnly | src/modules/tp_http.c:562-594 | A worker that reads data leaves its own send queue alone and writes back, on the same connection, the bare 200 of a server or the bare GET of a client, byte for byte; the client opens the server's connection with the bare GET |
| HttpTheorems.Reassembly | src/modules/tp_http.c:326-332 | Under every schedule, with no data under way both offsets agree, a packet is half built exactly if the offset is not 0, and it holds exactly that prefix of the packet at the head of the send queue |
| HttpTheorems.InternalStepWorks | src/modules/tp_http.c:581-594 | Each step of the transport's own lowers the number of reads still needed by exactly one |
| HttpTheorems.NothingStranded | src/modules/tp_http.c:722-725 | Some step is enabled unless everything handed over has arrived; no work is left exactly when both directions are drained |
| HttpTheorems.Drains | src/modules/tp_http.c:539-598 | Left alone, in whatever order it steps, the transport takes at most that many steps and has delivered everything after exactly that many |
| HttpTheorems.PacketCost | src/modules/tp_http.c:383-426 | In any reachable state a packet of n bytes adds exactly one message and one reply per 16 bytes begun in the side channel, and exactly one of each in the plain mode |
| HttpTheorems.AnsweredIffNonEmpty | src/modules/tp_http.c:335 | On an idle side channel the server answers a packet of the client with the empty response if and only if the packet is not empty, and the connection has a token afterwards if and only if it is not empty |
| HttpTheorems.ServerAnsweredIffNonEmpty | src/modules/tp_http.c:335 | The same for a packet of the server, answered with the GET |
| HttpTheorems.EmptyUnanswered | src/modules/tp_http.c:586-594 | In whatever state the far side is, the message of an empty packet delivers it but is never answered with the empty message; the far side sends on what it has itself |
| HttpProtocol.StepKeepsInv | src/modules/tp_http.c:539-598 | Every handler keeps the invariant of the two-endpoint system and ends without a fault |
| HttpProtocol.InvInit | src/modules/tp_http.c:644 | The invariant holds when only the client is ready to send and nothing is under way |
| HttpProtocol.EveryRunIsSafe | src/modules/tp_http.c:270-332 | From the start, under every schedule and whatever stale bytes recycled buffers hold, no assertion fails, no search comes back empty-handed, no copy leaves its buffer |
| HttpProtocol.LinkSend | src/modules/tp_http.c:720-728 | Handing over a packet keeps the token and the flow of its connection, whether or not a message is written |
| HttpProtocol.LinkReadData | src/modules/tp_http.c:581-594 | Reading data moves the receiver up to the sender, leaves the reader's own sender alone and puts the token under way as the empty reply |
| HttpProtocol.LinkReadBack | src/modules/tp_http.c:581-588 | Reading the empty reply writes the next message or parks the token, and leaves the half-built packet of the other connection alone |
| HttpFlow.FlowSend | src/modules/tp_http.c:338-499 | Writing the next message puts exactly the next fragment on the wire; it is empty exactly if the queue is, and fits the buffer |
| HttpFlow.FlowReceive | src/modules/tp_http.c:197-336 | The next message of the far end is recognised as data, faults nowhere and advances the receiver by exactly that fragment |
| HttpFlow.FlowBare | src/modules/tp_http.c:519-537 | The bare GET and the bare 200 are recognised as no data by either receiver and change nothing |
| HttpFlow.NoBlankIgnored | src/modules/tp_http.c:213-217 | Text without a blank line is taken for no data and changes nothing, in either mode |
| HttpFlow.ScanIsDeliver | src/modules/tp_http.c:257-322 | For every packet and every offset the receiver has reached, the search on the far end's next message announces the size exactly at offset 0 and copies exactly the next fragment |
| HttpFlow.DeliverFragment | src/modules/tp_http.c:304-332 | A fragment extends the half-built packet by exactly its bytes or completes it byte for byte |
| HttpText.ClientMessage | src/modules/tp_http.c:267-318 | For every fragment, size and host the server's search on the client's exact text announces that size, if any, and copies that fragment |
| HttpText.ServerMessage | src/modules/tp_http.c:267-318 | The same for the client's search on the server's exact text, page included |
| HttpText.BareMessage | src/modules/tp_http.c:267-322 | The search finds nothing in the bare messages and leaves a half-built packet alone |
| HttpText.NormalMessage | src/modules/tp_http.c:208-237 | For every packet, the empty one included, the plain receiver recovers from the plain message exactly that packet |
| HttpText.PlainOutcome | src/modules/tp_http.c:219-234 | Behind any header with the field the plain receiver yields exactly the decoded packet, or faults if and only if the text is not valid |
| HttpText.FieldInBodyIgnored | src/modules/tp_http.c:219-220 | A Content-Length behind the blank line does not count |
| HttpText.BareNormal | src/modules/tp_http.c:213-220 | The bare messages carry no packet for the plain receiver |
| HttpText.ScanReadsLines | src/modules/tp_http.c:269-322 | On a well-formed message the pointer walk is a fold over its header lines and never enters the body |
| HttpText.BlankAtHeadEnd | src/modules/tp_http.c:257 | The first blank line that strstr finds is the one that ends the header |
| HttpText.RequestTextMeans | src/modules/tp_http.c:271-282 | The GET branch on a request with any text for the size: a fault if a packet is half built or the text is no four bytes, otherwise a packet of the size the four bytes announce, the first most significant |
| HttpText.StoreOutcome | src/modules/tp_http.c:300-317 | Storing a fragment faults without a packet, on invalid text and past the end of the buffer, and otherwise changes exactly the bytes at the offset |
| HttpText.RequestLineMeans | src/modules/tp_http.c:271-282 | The GET branch on the client's request line starts a packet of the announced size |
| HttpText.CookieLineMeans | src/modules/tp_http.c:283-307 | The cookie branch starts a packet if and only if the line has an H field, then stores the ID field; neither search is misled by the rest of the line |
| HttpText.AuthLineMeans | src/modules/tp_http.c:308-318 | The Authorization branch copies the fragment of the line |
| HttpText.SizeRoundTrip | src/modules/tp_http.c:392-397 | The sender's htonl and the receiver's ntohl compose to the size modulo 2^32 |
| HttpText.SizeBytes | src/modules/tp_http.c:278 | Network byte order position by position: four bytes are the size b0*2^24 + b1*2^16 + b2*2^8 + b3, written and read |
| HttpText.BareTexts | src/modules/tp_http.c:519-537 | The bare GET and the bare 200, byte for byte |
| HttpText.DecimalDenotes | src/modules/tp_http.c:354 | The digits printed denote the number in decimal, without a leading zero |
| HttpWire.ClientWrites | src/modules/tp_http.c:383-418 | What a client in the side channel writes at any offset of any packet, character by character: the size in four bytes in network order at offset 0 only, the remote, and the next 16 bytes or what is left |
| HttpWire.ServerWrites | src/modules/tp_http.c:439-472 | The same for a server, with cookie and page |
| HttpWire.PlainWrites | src/modules/tp_http.c:350-365 | What either side writes in the plain mode, with the length of the text in decimal |
| HttpWire.PlainLength | src/modules/tp_http.c:350-364 | In a plain message the number behind the first Content-Length is the number of characters behind the first blank line |
| HttpWire.ServerLength | src/modules/tp_http.c:466-470 | The same in every side-channel message of a server |
| HttpText.NormalFits | src/modules/tp_http.c:343-365 | A plain message and its NUL fit the buffer if and only if the packet has at most 1503 bytes |
| HttpText.ClientFits | src/modules/tp_http.c:376-418 | Every message of a client fits if and only if the configured remote has at most 1873 characters |
| HttpText.ServerFits | src/modules/tp_http.c:432-472 | Every message of a server fits |
| HttpModule.TpHttp.constructor | src/modules/tp_http.c:609-649 | The initial state; only a client starts ready |
| HttpModule.TpHttp.Search | src/modules/tp_http.c:267-322 | The loop over the lines, on a buffer written in place, ends with the fault or the packet, offset and size of the specified search |
| HttpModule.TpHttp.NextLine | src/modules/tp_http.c:271-318 | One round of the loop, branch by branch |
| HttpModule.TpHttp.CookieBranch | src/modules/tp_http.c:283-307 | The cookie branch, with both fields |
| HttpModule.TpHttp.StoreFragment | src/modules/tp_http.c:300-317 | Decodes a fragment and copies it to the offset of the packet under assembly, or reports the fault |
| HttpModule.TpHttp.NewPacket | src/modules/tp_http.c:276-282 | Takes a buffer of the announced size, whose old contents are arbitrary |
| HttpModule.TpHttp.Settle | src/modules/tp_http.c:326-335 | Hands a complete packet to the receive queue |
| HttpModule.TpHttp.RecvBufSc | src/modules/tp_http.c:240-336 | The side-channel receiver refines its specification, faults included |
| HttpModule.TpHttp.RecvBufNormal | src/modules/tp_http.c:197-238 | The plain receiver refines its specification, faults included |
| HttpModule.TpHttp.RecvBuf | src/modules/tp_http.c:501-508 | The choice between the two receivers |
| HttpModule.TpHttp.BuildClient | src/modules/tp_http.c:388-416 | The pieces appended one by one are the client's message |
| HttpModule.TpHttp.BuildServer | src/modules/tp_http.c:444-470 | The pieces appended one by one are the server's message |
| HttpModule.TpHttp.BuildNormal | src/modules/tp_http.c:350-364 | The pieces appended one by one are the plain message |
| HttpModule.TpHttp.SendFragment | src/modules/tp_http.c:373-481 | Writes the next fragment and moves the offset or the queue on |
| HttpModule.TpHttp.SendNextNormal | src/modules/tp_http.c:338-371 | Sends the oldest packet, or becomes ready if there is none |
| HttpModule.TpHttp.SendNextSc | src/modules/tp_http.c:483-499 | Sends the next fragment, or becomes ready if no packet waits |
| HttpModule.TpHttp.SendNext | src/modules/tp_http.c:510-517 | The choice between the two senders |
| HttpModule.TpHttp.PktSend | src/modules/tp_http.c:720-728 | Enqueues, and sends at once if the token is parked here |
| HttpModule.TpHttp.PktRecv | src/modules/tp_http.c:711-718 | Takes the oldest received packet, if any |
| HttpModule.TpHttp.Open | src/modules/tp_http.c:562-563 | Before its loop a client writes the bare GET and a server nothing |
| HttpModule.TpHttp.HandleMessage | src/modules/tp_http.c:581-595 | One message through the worker: new state and bytes written as specified; data is answered with the bare 200 by a server and the bare GET by a client, byte for byte |
| HttpModule.TpHttp.Fini | src/modules/tp_http.c:651-661 | Puts back every received, waiting and half-built packet, once each |
| HttpModule.ReadSize | src/modules/tp_http.c:276-278 | Four decoded bytes are read as a size, the first most significant; any other text is refused |
| HttpModule.MemCpy | src/modules/tp_http.c:305 | The bytes of the source replace those at the offset and nothing else changes |
| CText.Find | src/modules/tp_http.c:257 | strstr: the first position at which the pattern occurs, or none if it occurs nowhere |
| CText.CStr | src/modules/tp_http.c:252-255 | What the string functions see of a buffer: up to its first NUL |
| Base64.EncodeIsRfc | src/base64.c:38-72 | The text of every byte string is that of section 4 of RFC 4648 |
| Base64.EncodeNumber | src/base64.c:50-71 | Every group of four characters, as digits of base 64 with '=' for 0, is the number of its three bytes, the first most significant, zero where none is left |
| Base64.DecodeEncode | src/base64.c:88-131 | Decoding the text of any byte string gives it back, and the text is valid |
| Base64.EncodeDecode | src/base64.c:88-131 | Encoding what a valid text decodes to gives the text with its unused bits set to zero, as in section 3.5 of RFC 4648 |
| Base64.DecodeRfc | src/base64.c:88-131 | Decoding inverts section 4 of RFC 4648 itself |
| Base64.RfcDecode | src/base64.c:88-131 | On valid text section 4 of RFC 4648 inverts decoding, up to the unused bits |
| Base64.EncodeIsCanonical | src/base64.c:38-72 | Texts produced are canonical, so for these the two directions are inverse |
| Base64.DecodableIffValid | src/base64.c:104-148 | Decoding succeeds if and only if the validator accepts |
| Base64.EncodeValid | src/base64.c:133-148 | Texts produced are accepted, and their decoded length is the original one |
| Base64.ValidIff | src/base64.c:133-148 | A text is valid if and only if it is whole groups of characters of the alphabet but for at most two '=' at the end |
| Base64.SymIsTable | src/base64.c:29-31 | The alphabet written out: symbol t is its character t, and a character's value is its only position in it |
| Base64.EncLen | src/base64.c:33-36 | Four characters for every three bytes begun |
| Base64.Enc | src/base64.c:38-72 | The loop fills the buffer with exactly the encoding |
| Base64.Dec | src/base64.c:88-131 | The loop, which assembles bytes in place, returns 0 if and only if the text is valid, and then the buffer holds exactly the decoded bytes; otherwise EINVAL |
| Base64.CheckValid | src/base64.c:133-148 | Whole groups, at most two '=' at the end, symbols everywhere else |
| Base64.EncNew | src/base64.c:150-164 | A new text with the encoding |
| Base64.DecNew | src/base64.c:166-185 | The decoded bytes of a valid text, otherwise EINVAL |
| List.List.InsertBeforeLink | src/list.c:90-104 | Relinks a new member before any member or the head; the ring stays whole and the sequence gains it there |
| List.List.InsertAfterLink | src/list.c:106-120 | The same after any member or the head |
| List.List.InsertHead | src/list.c:122-130 | Prepends |
| List.List.InsertTail | src/list.c:132-135 | Appends |
| List.List.InsertBefore | src/list.c:137-147 | Inserts right before the given member |
| List.List.InsertAfter | src/list.c:149-159 | Inserts right after the given member |
| List.List.Del | src/list.c:161-175 | Cuts out a member at any position, leaving it linked to itself; on one that was cut out before nothing happens; the asserted back links hold |
| List.List.Dequeue | src/list.c:182-205 | Takes the first member, or NULL of an empty list |
| List.List.DequeueLast | src/list.c:207-215 | Takes the last member, or NULL of an empty list |
| List.List.IsEmpty | src/list.c:251-257 | True exactly for the empty sequence |
| List.List.Head | src/list.c:217-221 | The first member or NULL |
| List.List.Tail | src/list.c:223-227 | The last member or NULL |
| List.List.Next | src/list.c:229-238 | The following member, NULL after the last |
| List.List.Prev | src/list.c:240-249 | The preceding member, NULL before the first |
| List.List.Count | src/list.c:259-269 | The walk ends and counts exactly the members |
| List.List.Forward | src/list.c:217-238 | Walking by next from the head yields the sequence and ends |
| List.List.Backward | src/list.c:223-249 | Walking by prev from the tail yields the reverse and ends |
| List.DelThenInsert | src/list.c:137-175 | A member cut out and inserted before the one that followed it: the ring is as it was |
| List.InsertThenDel | src/list.c:137-175 | A member inserted and cut out: the ring is as it was, and the member is linked to itself |
| Queue.Queue.Enqueue | src/queue.c:44-49 | Appends a packet |
| Queue.Queue.Dequeue | src/queue.c:51-60 | Takes the oldest packet, or NULL |
| Queue.Queue.DequeueLast | src/queue.c:62-71 | Takes the newest packet, or NULL |
| Queue.Queue.Front | src/queue.c:73-82 | Shows the oldest packet, or NULL |
| Queue.Queue.PopFront | src/queue.c:84-89 | Removes the oldest packet, if any |
| Queue.Queue.Flush | src/modules/tp_xmpp.c:213-220 | Gives every packet back once, in order, and leaves the queue empty |
| Handoff.HandsOver | src/modules/tp_xmpp.c:570-571 | Under every interleaving of any number of handlers and readers, a reader that has waited gets a packet, packets come out in order of arrival, and the rest are queued |
| Handoff.HandsOverFromInit | src/modules/tp_xmpp.c:341-344 | From the start: queue length = semaphore + posts pending + waits returned; no dequeue after a wait returns NULL |
| Handoff.NoLostWakeup | src/modules/tp_xmpp.c:570-571 | While a packet is queued some step towards a reader is enabled, each such step makes progress by exactly one, and none is left exactly when the queue is empty |
| Pool.KeepsInv | src/packet.c:116-168 | Every operation keeps each packet ever created in exactly one of sized cache, empty cache, handed out, freed, creates at most the packet it returns, and frees no data buffer twice, whether the pool created it or a user attached it |
| Pool.RunKeepsInv | src/packet.c:116-168 | The same over every run, and no packet is ever forgotten |
| Pool.RunAccounts | src/packet.c:77-83 | Over every run the buffers freed are exactly those attached to packets put back and those of freed packets |
| Pool.NothingLeaks | src/packet.c:42-57 | After any use and a final flush, with everything returned, all packets are freed, and every data buffer, created by the pool or attached by a user, has been freed exactly once and nothing else |
| Pool.ReusesLatest | src/packet.c:116-135 | A packet just put back is what the next fitting request gets, and the pool is then as it was before |
| Pool.ReusesLatestEmpty | src/packet.c:137-168 | An unsized packet just put back is what the next request for an empty one gets; only an attached buffer that was freed tells the pool from before |
| Pool.CountBuffers | src/packet.c:51-55 | A flush frees the buffer of each cached packet once and no other buffer |
| Packets.Packets.Create | src/packet.c:85-114 | A new packet, with a buffer of its own of exactly the size unless the size is 0 |
| Packets.Packets.Search | src/packet.c:122-124 | The loop stops at the first packet whose capacity suffices |
| Packets.Packets.Get | src/packet.c:116-135 | Takes the most recently returned packet that is large enough, keeping the order of the others, or creates one only if none is; its size is the request and its buffer holds at least so many bytes |
| Packets.Packets.GetEmpty | src/packet.c:137-148 | Takes the latest empty packet or creates one; it holds nothing |
| Packets.Packets.Put | src/packet.c:150-168 | A sized packet keeps its buffer and heads the cache; any other is stripped, its attached standard buffer freed, and heads the empty cache |
| Packets.Packets.Flush | src/packet.c:42-57 | Empties both caches and frees each cached buffer once, in order |
| Packets.Packet.Reset | src/packet.c:67-75 | The packet holds nothing |
| Pipeline.CompleteIff | src/pipeline.c:181-190 | The asserted list invariant plus an edge at both ends is exactly edge, plugins, edge; and it holds at every stage of building such a pipeline |
| Pipeline.Pipeline.CheckInvariant | src/pipeline.c:153-176 | The loop returns whether the first module is no plugin and all between first and last are plugins |
| Pipeline.Pipeline.AddModule | src/pipeline.c:178-203 | Appends a module, which inverts if and only if it is a transport at the head or an interface behind it |
| Pipeline.EdgesFace | src/pipeline.c:214-223 | Ahead of a packet under way there is a module; an edge, whatever its kind and end, is given the direction it takes and ends the trip; a plugin is given the direction itself and sends it on |
| Pipeline.PollFaces | src/pipeline.c:212 | What an edge emits when polled has a module ahead, in all four combinations of edges |
| Pipeline.Routing | src/pipeline.c:213-227 | A packet visits the modules ahead of it once each, in order, up to the first that fails or consumes it, at the latest the far edge; the result is that module's |
| Pipeline.EdgeToEdge | src/pipeline.c:205-233 | A packet polled at one edge reaches the other if and only if every plugin on its way, when it is met, passes it or its successor on; the far edge then consumes it, or fails and the pipeline puts it back |
| Pipeline.Ownership | src/pipeline.c:212-227 | On every path out, each packet that entered left exactly once, in order: taken by a module or, only the one a module failed on, put back by the pipeline; a module that fails or has nothing when polled ends the call with its result |
| Pipeline.FatesAreAnswers | src/pipeline.c:223-226 | A trip records as put back or kept exactly what the modules on the way answered, in order |
| Pipeline.WalkOwnership | src/pipeline.c:213-227 | The same for the rest of a trip from any module |
| Pipeline.ModuleProcess | src/module.c:65-85 | Directions are inverted on the way in and, for success with a packet, on the way out |
| Pipeline.Process | src/pipeline.c:205-233 | The loop ends, its assertions hold, and its result, visits and hand-overs are those of the recursive trip |
| HttpInPipeline.EndpointKeeps | src/modules/tp_http.c:730-747 | The transport takes SEND, emits RECV and only when polled, never fails, and a packet it keeps is the last of its send queue |
| HttpInPipeline.ClientKeepsInterface | src/modules/tp_http.c:730-747 | In every reachable state the client keeps the module interface the pipeline relies on, and what the pipeline makes it do is a send or a take of the two-endpoint protocol |
| HttpInPipeline.ServerKeepsInterface | src/modules/tp_http.c:730-747 | The same for the server |
| ConfStore.RunRefinesMap | src/conf.c:103-171 | Over every run the store means what stores, drops and flushes on a map mean; records held by users are alive and keep their key and value |
| ConfStore.KeepsInv | src/conf.c:94-202 | Every operation keeps keys unique, every cr_ref equal to 1 if stored plus the references held, a record destroyed exactly at 0, and counts one generation per store, drop or flush |
| ConfStore.ActsAsMap | src/conf.c:103-171 | Every operation changes what each key means exactly as on a map |
| ConfStore.StoreUpdates | src/conf.c:103-121 | Storing is map update |
| ConfStore.DropKeepsInv | src/conf.c:123-135 | Dropping is map removal; the two releases leave users' references counted |
| ConfStore.FlushEmpties | src/conf.c:56-68 | Flushing empties the store and keeps users' references |
| ConfStore.LookupFinds | src/conf.c:145-171 | A lookup returns the record the map gives and one more reference, or nothing and no change |
| ConfStore.HeldIsAlive | src/conf.c:173-179 | The reference count asserted to be positive is, for every record held or stored |
| ConfStore.PutKeepsInv | src/conf.c:188-202 | A release destroys a record if and only if it was the last reference and the record is not stored |
| Conf.Conf.Store | src/conf.c:103-121 | On real records: the state and the meaning of every key after a store |
| Conf.Conf.Drop | src/conf.c:137-143 | The same for a drop, generation included |
| Conf.Conf.Flush | src/conf.c:56-68 | The same for a flush, with its loop |
| Conf.Conf.Lookup | src/conf.c:161-171 | The record with the key and a new reference, or NULL |
| Conf.Conf.SearchLocked | src/conf.c:150-154 | The loop stops at the record with the key, or at the end if there is none |
| Conf.Conf.DropLocked | src/conf.c:123-135 | Removes the record, if found, and its two references |
| Conf.Conf.RecordGet | src/conf.c:181-186 | One more reference |
| Conf.Conf.RecordPut | src/conf.c:197-202 | One reference less |
| Conf.Conf.FindString | src/conf.c:220-240 | ENOENT, ERANGE, or the value, and no reference is left behind |
| Conf.Conf.FindStringAlloc | src/conf.c:242-266 | ENOENT or the value, and no reference is left behind |
| Conf.Conf.FindBool | src/conf.c:268-286 | True exactly for a key with a value other than the four spellings of false, and no reference is left behind |
| Conf.LookupThenPut | src/conf.c:211-217 | A lookup whose reference is given back leaves everything as it was |
| ConfSyntax.TrimIs | src/conf_file.c:40-50 | Any white space around a text without it at the ends is taken off |
| ConfSyntax.TrimSplits | src/conf_file.c:40-50 | Nothing but white space at the ends is taken off |
| ConfSyntax.EntryText | src/conf_file.c:124-149 | An entry written with any white space around key and value is read back as that key and value if and only if it does not look like a comment or a section |
| ConfSyntax.SectionText | src/conf_file.c:126-130 | A section written with any white space is read back as that name |
| ConfSyntax.SkipText | src/conf_file.c:135-137 | White space, and a line whose first other character is '#', say nothing |
| ConfSyntax.BadText | src/conf_file.c:139-144 | Any other line without '=' that is no section cannot be read |
| ConfSyntax.NulEndsLine | src/conf_file.c:124-125 | Nothing behind a NUL is read |
| ConfSyntax.KeyUnderSection | src/conf_file.c:58-71 | An entry k=v under a line [s], with any white space, gives its value to the key s.k, and to k itself if s is `core` or empty, if nothing before it gave that key a value |
| ConfSyntax.KeyWithoutSection | src/conf_file.c:58-71 | An entry k=v before any section gives its value to the key k |
| ConfSyntax.FileMeans | src/conf_file.c:116-157 | A file gives a key the value of the first line that defines it under the name of the last section before that line, if no line before it is unreadable; the file is read to its end if and only if every line is readable |
| ConfSyntax.ReadsWholeLines | src/conf_file.c:117 | fgets returns the lines of the file if and only if each has at most 255 characters |
| ConfSyntax.ReadsEverything | src/conf_file.c:117 | The pieces read make up the whole file |
| ConfSyntax.ReadErrorLoses | src/conf_file.c:117-122 | A read error loses an unfinished last line shorter than the buffer and nothing else |
| ConfSyntax.LinesEndAtNewlines | src/conf_file.c:117 | Lines make up the file and end at newlines, which only the last may lack |
| ConfSyntax.WordText | src/conf_argv.c:184-193 | A word key=value is read as that pair, a word without '=' as the value 1 |
| ConfSyntax.OptionTable | src/conf_argv.c:38-46 | The seven options by letter: the key each sets and whether to its argument or to 1, and no other letter |
| ConfSyntax.OptionsInOrder | src/conf_argv.c:161-178 | One pair for each option in order up to an unknown one or one that lacks its argument; only the latter is an error |
| ConfSyntax.WordsUpToDash | src/conf_argv.c:179-197 | One pair for each word in order up to one that starts with a dash, which is an error |
| ConfSyntax.LastWordWins | src/conf_argv.c:161-197 | The last word with a key decides it, over every option and earlier word |
| ConfSyntax.LastIs | src/conf_argv.c:135-141 | Of pairs stored in order the last with a key is its value |
| ConfSources.TrimInPlace | src/conf_file.c:40-50 | Moves the start and writes the end into the line buffer; the string there is the trimmed one and the rest of the buffer is untouched |
| ConfSources.FileKey | src/conf_file.c:52-73 | The section prefix, none for no section, `core` or the empty one |
| ConfSources.ScanLine | src/conf_file.c:124-149 | The branches on the line buffer, cut in place, tell section, blank or comment, entry, or unreadable line apart |
| ConfSources.FileStore | src/conf_file.c:75-93 | Stores only if the key has no value; otherwise nothing changes |
| ConfSources.Fgets | src/conf_file.c:117-122 | At most 255 characters, up to a newline, end of file or error |
| ConfSources.ReadFile | src/conf_file.c:95-164 | Each key keeps its value or gets that of the file; a file that adds no key changes nothing; EINVAL for an unreadable line, EIO for a read error, the error of a failed open, else 0 |
| ConfSources.ReadAgain | src/conf_file.c:82-87 | Reading the same file again changes nothing, the generation included |
| ConfSources.FindOption | src/conf_argv.c:170-174 | The loop finds the entry of the option table |
| ConfSources.ReadWords | src/conf_argv.c:179-197 | Stores the words in order up to one that starts with a dash, which is EINVAL |
| ConfSources.ReadArgv | src/conf_argv.c:143-204 | Stores options up to an unknown one, then words; every key has its last value; one generation per pair |
| ConfSources.ReadSources | src/pppoat.c:227-240 | From an empty configuration: each key has its last value on the command line, else its first in the file the command line names, else none; and exactly when this succeeds |

## Left out

- Sockets, poll, pipes, listen, accept and connect: a connection is an ordered, reliable byte stream.
- Splitting of a message by TCP: one read returns all bytes under way up to 2048, as the source assumes; that two messages never merge is proved (`HttpTheorems.OneToken`).
- The race of the pipeline thread and the HTTP worker on the unlocked `thc_send_ready` and `thc_send_offset`: each handler is one atomic step.
- Failing allocations: they succeed.
- HttpTheorems.Tunnel: does not cover a client in the side channel whose `http.remote` contains a line end or has more than 1873 characters, an empty packet in the side channel, or a packet above 1503 bytes in the plain mode. A remote that is too long or a packet that is too large overruns the buffer (`HttpText.ClientFits`, `HttpText.NormalFits`, both if and only if), and an empty packet loses the token (`HttpTheorems.AnsweredIffNonEmpty`); a line end would add lines to the header, which may or may not matter, and is not analysed. `HttpTransport.GoodConf` and `HttpTransport.Carried` state the conditions.
- The packet pool and the pipeline inside the HTTP model: there packets are byte strings, so aliasing of packet buffers between modules is not captured; a recycled buffer is one with arbitrary contents.
- The assertion `rc == 0` after writes, and error codes of the operating system.
- `pkt_userdata`, `thc_recv_size`, `c_store_nr` and the configuration iterator: never used by the modelled code, or stubs.
- The linked list below the packet caches, the module list and the record list: these are sequences in `Packets`, `Pipeline` and `Conf`; `List` proves that the linked form behaves as a sequence.
- Packets in `Pipeline` are names with a direction; what a module does is any behaviour that keeps the module interface (`Pipeline.Honest`): interfaces and transports emit one direction and consume the other, plugins keep the direction, a packet is left alone on error. That the HTTP transport does is proved (`HttpInPipeline`); for the other modules it is assumed.
- An uninitialised next packet after a module error: never read, since the loop ends.
- `pppoat_pipeline_start` and `pppoat_pipeline_stop`: threads, and error recovery that the source marks as incomplete.
- Offsets of embedded links and magic fields: an object of a list is its link.
- libstrophe, XMPP stanzas, reconnecting, version and discovery handlers; `tp_udp.c`, `if_pppd.c`, `if_tun.c`.
- Logging, tracing, memory, mutex, semaphore and thread wrappers: a locked section is one step.
- getopt: the model starts from the options it reports and the words it leaves. strtol and with it `pppoat_conf_find_long`; `pppoat_conf_dump` and the usage text.
- `pppoat_conf_record_put` unlocks through the record after it may have been destroyed (`src/conf.c:199-201`); the model takes the configuration as the receiver of the call.
- Base64 texts with a NUL inside: callers pass C strings.
