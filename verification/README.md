# Adwarden's native core

Adwarden is a VPN-based content blocker. Its native core takes bytes in pieces of whatever size TCP delivers, keeps state
between the pieces, and has to behave as if it had seen each stream at once. This project models the machines that do so
and proves what they promise.

- **Rewriting responses** (`Bytes`, `Chunked`, `ChunkGrammar`, `HttpHead`, `BodyRule`, `Eligible`, `HeadWords`, `Anchor`, `HeadEdit`,
  `HeadReparse`, `RequestHead`, `Rewriter`, `HeadRoutes`, `Messages`, `Reframing`, `Conservation`, `Exchange`, `Cuts`,
  `HttpRewriter`). The response machine holds heads back, looks for an anchor in the document, inserts a blob, and rewrites
  the length or the chunks. `Rewriter` has one function for each of the four states; `Messages` follows a stream of responses through them; `Reframing` reads the output as messages again;
  `Conservation` accounts for every byte in runs that edit nothing; `Exchange` follows requests and responses together
  through a connection; `Cuts` says which verdicts the cuts of a document bring about; `HttpRewriter` is the object.
- **Recording transactions** (`HttpTap`, `Pairing`, `TapReports`, `Calendar`). The tap reads both directions and pairs requests with
  responses.
- **Routes** (`Cidr`, `CidrText`, `TunRoutes`). The complement of a list of CIDR blocks as the fewest routes.
- **HTTP/2** (`H2`, `H2Ends`, `H2Bytes`, `H2Server`). Frames, header blocks, streams and responses.
- **Datapath** (`NetStack`, `Sessions`, `Forwarder`, `FlowTable`, `Verdicts`, `Relay`, `Sni`). The session tables and their
  routes, the verdict cache, and the order of bytes on one relayed flow.
- **Other streams** (`HttpForward`, `Dns`, `Dot`, `Proxy`). Requests for a forward proxy, the DNS-over-TLS filter, and
  the handshakes with an upstream proxy.

What a head, a CIDR text, a query or a handshake message says is defined without the parser or the writer of the code, and
their agreement is proved (`BodyRule`, `Eligible`, `HeadWords`, `CidrText`, the readers in `Proxy` and `Dns`).

An object whose methods update its fields is a class here. Each method is proved against a function on values, and the
theorems are about those functions. Bytes are the integers from 0 to 255; text is bytes, with UTF-8 spelt out where the
code checks it. Sizes are unbounded, except where the code compares them with a limit or parses them into `usize`.

Sockets, clocks, libraries and the host system are parameters: what a write call takes, when a connection is refused, what
HPACK decodes a block to after the blocks before it, which socket is closed, whether the socket can listen, who owns a
flow, which name is blocked.

## What the code does not promise after all

- The rewriter's header comment says that it never drops bytes. When the request side gives up, or the connection closes,
  while a response is held for its anchor, the held bytes are dropped. `Conservation.KeptUnlessHeld` and
  `Conservation.KeptAtClose` say exactly when; `Conservation.HeldHeadIsLost` and `Conservation.HeldHeadIsLostAtClose`, with
  the head of `Conservation.HtmlHead`, are the examples.
- When the request side gives up while a chunked response is being injected into, the rest of it is sent as it came, in the
  middle of a body that was chunked anew. `Exchange.GivingUp` says exactly what becomes of the response: it is still whole
  if and only if the rest reads as chunks by itself, which it does between two chunks (`Exchange.BetweenChunks`) and need not
  do within one (`Exchange.InsideChunk`).
- A document that was injected into is to be left alone the next time. The scan decides on what has arrived, so that a feed
  that ends in front of the marker may be enough to inject again. `Cuts.InjectedOnceIff` gives the exact condition, and
  `Cuts.InjectedTwice` with `Cuts.HeadSettles` the example.
- The parser of heads trims Unicode white space from names, the editor only ASCII white space without the vertical tab.
  `HeadReparse.LengthRewritten`, `HeadReparse.PolicyDropped` and `RequestHead.IdentityForced` therefore carry the exact
  condition, and `HeadReparse.VerticalTabHidesLength` is an example of the difference.
- A CONTINUATION frame without an open header block is accepted on a known stream, and its payload gets into a later block
  or becomes one (`H2Server.StrayIsKept`). `H2Server.HeaderBlocksContiguous` says exactly when that is harmless, and
  `H2Server.HeaderBlocksHeard` what is decoded in any case.
- The comment in `build_response` says that the question count is one; the code copies the query's count, as
  `Dns.NxDomainAnswers` states.
- The version octet of the SOCKS5 password status is not looked at, as `Proxy.SocksDone` states, and a reply of an unknown
  address type is refused before its version and REP are looked at.

## Model

| member | source | states |
|---|---|---|
| Chunked.SegmentationIndependent | rust/tls/src/har.rs:164-252 | However a stream is cut into segments below the 64 KiB line cap, the reader ends where a byte-at-a-time decoder of section 7.1 of RFC 9112 ends on the whole stream: same verdict, same body, and exactly the bytes after the body left over |
| Chunked.SegmentationIndependentShortLines | rust/tls/src/har.rs:190-198 | The same for segments of any size, if no line of the stream is longer than the cap |
| Chunked.ReaderInvertsWriter | rust/tls/src/rewriter.rs:780-787 | Any chunks written by `rechunk` and then the last chunk read back as the joined data, using exactly those bytes and none of what follows |
| Chunked.RechunkDecodes | rust/tls/src/rewriter.rs:780-787 | One written chunk, its hexadecimal size line included, reads back as its data and leaves the reader ready for the next size |
| ChunkGrammar.GrammarReads | rust/tls/src/har.rs:164-252 | Everything that section 7.1 of RFC 9112 writes, chunks with sizes in any digits and with extensions, a last chunk and trailer fields, is read as the joined data, using exactly those bytes |
| Chunked.KeptIsCappedPrefix | rust/tls/src/har.rs:100-109 | What is captured is the front of the body up to 512 KiB; the true length is counted and truncation is flagged exactly when there was more |
| Chunked.PushCappedTwice | rust/tls/src/har.rs:100-109 | Capturing in pieces is capturing at once |
| Chunked.ChunkReader.Consume | rust/tls/src/har.rs:174-252 | The loop over the buffer: step, new state, remaining bytes and captured bytes are those of the decoder on the whole buffer |
| Chunked.ChunkReader.TurnOnce | rust/tls/src/har.rs:180-250 | One turn of that loop, with the three lookups for LF and their early returns |
| Anchor.AnchorStreamingStable | rust/tls/src/rewriter.rs:556-567 | An anchor that streaming has settled on never moves, whatever text follows |
| Anchor.DecisionIndependent | rust/tls/src/rewriter.rs:341-353 | For a document without marker or UTF-16 BOM whose anchor is settled within the scan limit, whatever has arrived when the scan decides, it decides as on the whole document |
| Anchor.StillDecided | rust/tls/src/rewriter.rs:341-353 | Once the scan decides, it would decide on everything that can still come: no text makes it wait again |
| Anchor.ScanTagStart | rust/tls/src/rewriter.rs:585-598 | The loop that skips to ever later `<name` finds the first occurrence that ends properly |
| Anchor.FindCi | rust/tls/src/rewriter.rs:614-629 | The byte loop finds the first case-insensitive occurrence, after a `<` for a tag |
| Anchor.TagStart | rust/tls/src/rewriter.rs:585-598 | The result is the first properly ended tag, and there is none exactly when there is no such tag |
| Anchor.StreamingIs | rust/tls/src/rewriter.rs:556-565 | While the document arrives, the offset is just past the first whole head tag or in front of the first body tag, whichever comes first, and there is none exactly when there is neither |
| Anchor.FinalIs | rust/tls/src/rewriter.rs:569-574 | In the end it is just past the first head tag; without one, in front of the first body tag; without that, just past the first html tag; and without that, just past the doctype |
| Anchor.DecideIs | rust/tls/src/rewriter.rs:341-353 | A document with a UTF-16 byte order mark or the marker is left alone; otherwise a streaming anchor is taken at once; without one the document is waited for until it is whole or 64 KiB have come, and then the final anchor is taken if there is one |
| HeadEdit.SplitCrlfLines | rust/tls/src/rewriter.rs:638-655 | The index loop cuts exactly at each CRLF |
| HeadEdit.RebuildResponseHead | rust/tls/src/rewriter.rs:724-752 | The line loop with its drop flag builds the edited head that the theorems below are about |
| HeadEdit.RebuildRequestHead | rust/tls/src/rewriter.rs:698-722 | The same for request heads |
| BodyRule.ResponseDelimited | rust/tls/src/har.rs:583-595 | For every status, request and list of fields: a response to HEAD and one with 1xx, 204 or 304 has no body; otherwise the body is chunked if and only if the first Transfer-Encoding lists chunked, else it has the first Content-Length, none if that is 0, and else it runs until the close (section 6.3 of RFC 9112) |
| BodyRule.RequestDelimited | rust/tls/src/har.rs:572-580 | The same for requests: chunked, or the first Content-Length, or no body |
| BodyRule.LookupIsFirst | rust/tls/src/har.rs:607-612 | A field is looked up by its first occurrence, whatever the case of its letters, and is missing exactly when no field has the name |
| BodyRule.SplitIsPieces | rust/tls/src/har.rs:597-601 | Cutting a text at a character gives exactly the pieces between the occurrences of that character |
| Bytes.EqualButForCase | rust/tls/src/har.rs:607-612 | Names are equal but for case if and only if each two bytes are the same or the two cases of one letter |
| Bytes.TrimStartCuts | rust/tls/src/har.rs:524-525 | Trimming takes off all the white space in front and nothing else |
| Bytes.TrimEndCuts | rust/tls/src/har.rs:524-525 | And all the white space behind |
| Eligible.InjectableIff | rust/tls/src/rewriter.rs:515-552 | A response is injected into if and only if it is not partial, its first Content-Type is text/html, its first Content-Encoding is missing, blank or identity, and its first charset, without quotes, is no UTF-16 |
| HeadWords.RequestWordsIff | rust/tls/src/har.rs:547-557 | For every line: the request line is read as these three words if and only if they are its first three words, the first is not empty and the third begins with HTTP/ |
| HeadWords.StatusWordsIff | rust/tls/src/har.rs:559-569 | For every line: the status line is read as this version and status if and only if they are its first two words |
| HeadWords.WrittenHeadReads | rust/tls/src/har.rs:496-535 | A head that was written, a start line and fields, ends where it ends whatever follows, and is read as exactly that line and those fields in order |
| HeadWords.WrittenRequestRecorded | rust/tls/src/har.rs:344-362 | The tap records a written request with its method, target and version, its fields, and the size of its head |
| HeadWords.WrittenResponseRecorded | rust/tls/src/har.rs:397-417 | The tap records a written response with its version and status, its fields, and the size of its head |
| HeadReparse.LengthRewritten | rust/tls/src/rewriter.rs:724-752 | An edited head of unfolded CRLF lines is found whole, keeps its start line, and announces the new length if and only if the editor knows the line from which the parser takes the length |
| HeadReparse.VerticalTabHidesLength | rust/tls/src/rewriter.rs:664-684 | The two differ: after a vertical tab the parser reads a length that the editor leaves alone |
| HeadReparse.OtherFieldsKept | rust/tls/src/rewriter.rs:724-752 | Every field but Content-Length and the content security policies reads as before |
| HeadReparse.PolicyDropped | rust/tls/src/rewriter.rs:690-694 | No policy field is left in an edited head if and only if the editor knew every line that the parser files under it |
| HeadReparse.FoldedField | rust/tls/src/rewriter.rs:724-752 | A field with lines folded under it is edited as one: a policy goes with all of its lines, any other field keeps them, and the next field is edited as if nothing had been in front of it |
| HeadReparse.FoldedEncoding | rust/tls/src/rewriter.rs:698-722 | The same for requests and Accept-Encoding |
| RequestHead.IdentityForced | rust/tls/src/rewriter.rs:698-722 | An edited request head is found whole and keeps its request line and every other field; Accept-Encoding says identity, unless the parser files under that name a line that the editor does not know, whose value then stands |
| HeadRoutes.BodilessPasses | rust/tls/src/rewriter.rs:266-285 | A response without a body, over any head that says so: exactly its head goes out, nothing that follows is touched, and the next message begins; an interim one answers no request |
| HeadRoutes.BodyFollows | rust/tls/src/rewriter.rs:280-300 | Any other response: its body is delimited as its fields say and nothing of it is taken yet; its head goes out, or is held if and only if it is plain HTML |
| HeadRoutes.SwitchTurnsOff | rust/tls/src/rewriter.rs:272-278 | After a 101 response everything goes out as it is, and the rewriter is off |
| HeadRoutes.RequestHeadIff | rust/tls/src/rewriter.rs:163-190 | A request head is taken for a HEAD request, and its body for what it is, exactly as its words and fields say |
| HeadRoutes.RequestRoutes | rust/tls/src/rewriter.rs:163-206 | A request head that is read goes on edited; then comes the next head, or as many bytes as it announces; a chunked one makes the request side give up |
| Messages.FramedIsFramed | rust/tls/src/rewriter.rs:280-300 | The messages of the theorems below, delimited as section 6.3 of RFC 9112 says, are those that the machine delimits |
| Messages.StreamDelivered | rust/tls/src/rewriter.rs:215-490 | Any keep-alive stream of complete responses, the last of which may run until the close (and is all held if the scan still waits then), in any feeds of at most 16 KiB, comes out as one output for each: byte for byte, or the edited head and the document under one verdict that the scan gives on a part of it or on the whole, which is the document unchanged or with the blob once at the offset settled on, in the same framing, with one last chunk; the capture cap never fires, no byte of one message is taken for another, and the HEAD flags of exactly the answered requests are used up |
| Messages.DriveDelivers | rust/tls/src/rewriter.rs:215-242 | The same for one drain of a buffer from the middle of any message: exactly the messages it completes are delivered |
| Messages.CutsMakeNoDifference | rust/tls/src/rewriter.rs:341-353 | For a document without marker or UTF-16 BOM whose anchor is settled within the scan limit, what was delivered is what the verdict on the whole document asks for, however the response was cut |
| Exchange.ConnectionDelivered | rust/tls/src/rewriter.rs:136-159 | A whole connection from its first byte: requests and responses in any interleaving in which each response starts after its request is complete, cut in any way. The server gets every request with its head edited, and the app gets every response as `Messages.StreamDelivered` says |
| Exchange.RunDelivers | rust/tls/src/rewriter.rs:136-159 | At every moment of such a connection, exactly the responses that have come whole have been delivered, and the bytes emitted of the one under way, those held and those still to come make it up |
| Exchange.DriveAsks | rust/tls/src/rewriter.rs:163-206 | Draining the request side sends exactly the bytes of the requests that have come, each with its head edited, and queues one HEAD flag for each head, in order |
| Exchange.GivingUp | rust/tls/src/rewriter.rs:208-213 | When the request side gives up in the middle of such a connection, everything still to come of the responses goes out as it is. The response under way is then whole if it was passed on, without its head if it was held, and, if it was being injected into, delivered exactly unless it is chunked and the rest of it does not read as chunks by itself |
| Exchange.BetweenChunks | rust/tls/src/rewriter.rs:208-213 | What is left of a chunked body reads by itself where a size line is due, so that giving up there loses nothing |
| Exchange.InsideChunk | rust/tls/src/rewriter.rs:208-213 | The concrete failure: inside a chunk of any length there is a rest of the body that does not read by itself, so that the re-chunked body breaks |
| Reframing.OutputIsMessage | rust/tls/src/rewriter.rs:355-394 | The output for one message, under any verdict, is again one framed message of the same status that carries the planned document; a rewritten Content-Length is the length of the emitted body |
| Reframing.DeliveredIsMessage | rust/tls/src/rewriter.rs:355-394 | What was delivered for one message is one message again, with its document unchanged or with the blob in it once at an offset the scan settles on |
| Reframing.StreamReframed | rust/tls/src/rewriter.rs:355-394 | As many messages come out as went in, and read as messages each carries its own document, unchanged or with the blob in it once |
| Reframing.DeletingBlobRestores | rust/tls/src/rewriter.rs:370-394 | Under every verdict the scan can give, taking the blob out at its place gives back the document that came in, and a document that was left alone is unchanged |
| Conservation.NothingLost | rust/tls/src/rewriter.rs:149-159 | At every point of a run that edits no response, for every segmentation and any requests in between, the bytes emitted, the bytes held for the anchor and the bytes buffered are together exactly the bytes fed |
| Conservation.IdentityWithoutInjectable | rust/tls/src/rewriter.rs:453-495 | While no response is injectable (HEAD, 1xx, 101, 204, 304, other media, malformed heads and chunks), the bytes emitted and the bytes buffered are exactly the bytes fed |
| Conservation.KeptUnlessHeld | rust/tls/src/rewriter.rs:208-213 | When the request side gives up during a run that edits nothing, the app still gets every byte if and only if no response was being held for its anchor at that moment |
| Conservation.HeldHeadIsLost | rust/tls/src/rewriter.rs:149-159 | The concrete failure: a held response head is never emitted once the request side gives up |
| Conservation.KeptAtClose | rust/tls/src/mitm.rs:279-295 | When the connection closes after such a run, the app has got every byte if and only if no response is being held for its anchor and nothing is buffered: the close reaches the recorder only |
| Conservation.HeldHeadIsLostAtClose | rust/tls/src/mitm.rs:279-295 | The concrete failure: a held response that runs until the close is never emitted once the connection closes, with no request giving up |
| Conservation.HtmlHead | rust/tls/src/rewriter.rs:515-536 | There is a head that is held in this way |
| HttpRewriter.HttpRewriter.FeedRequest | rust/tls/src/rewriter.rs:136-147 | The object's request side is the model's: new state, queue of HEAD flags, and emitted bytes |
| HttpRewriter.HttpRewriter.FeedResponse | rust/tls/src/rewriter.rs:149-159 | The object's response side is the model's, including the bypass when the rewriter is off |
| HttpRewriter.HttpRewriter.DriveRequestBuffer | rust/tls/src/rewriter.rs:163-206 | The loop over the request buffer, as a whole |
| HttpRewriter.HttpRewriter.DriveResponse | rust/tls/src/rewriter.rs:215-242 | The loop over the four response states, as a whole |
| HttpRewriter.HttpRewriter.StepResponseHead | rust/tls/src/rewriter.rs:244-302 | One step in Head: emitted bytes, next state, and whether to go on |
| HttpRewriter.HttpRewriter.StepResponseBuffer | rust/tls/src/rewriter.rs:306-407 | One step in Buffer |
| HttpRewriter.HttpRewriter.StepResponseStream | rust/tls/src/rewriter.rs:409-451 | One step in Stream |
| HttpRewriter.HttpRewriter.StepResponsePass | rust/tls/src/rewriter.rs:453-490 | One step in Pass |
| HttpRewriter.HttpRewriter.DecodeChunks | rust/tls/src/rewriter.rs:762-767 | Decoding with a fresh capture takes from the buffer what the decoder takes |
| HttpRewriter.PassThrough | rust/tls/src/rewriter.rs:110-159 | Without a style sheet and a script both directions pass byte for byte, over every run |
| Cuts.VerdictsOfCuts | rust/tls/src/rewriter.rs:341-353 | The verdicts that some cut of a document brings about are exactly those on one of its prefixes, when it decides, and that on the whole |
| Cuts.LeftAloneIff | rust/tls/src/rewriter.rs:341-345 | A document whose first marker ends at k is left alone under every cut if and only if its first k - 1 bytes, taken as all that has arrived, would not be injected into |
| Cuts.InjectedOnceIff | rust/tls/src/rewriter.rs:341-345 | A document that was injected into carries the marker; it is never injected into again, whatever the cut, if and only if what stands in front of the marker's end would not be injected into |
| Cuts.InjectedTwice | rust/tls/src/rewriter.rs:341-345 | The failing family: where the front of the document settles the anchor by itself, a cut just there makes the scan inject a second time |
| Cuts.HeadSettles | rust/tls/src/rewriter.rs:341-345 | There is such a document: an opening head tag |
| Cuts.WholeIsLeft | rust/tls/src/rewriter.rs:341-345 | If all of a document that was injected into is in the scan, it is left alone |
| Pairing.TapPairsInOrder | rust/tls/src/har.rs:342-471 | For any segmentation and interleaving in which responses start after their requests are complete, the last response not running until the close: once every byte has come, exactly the k-th request stands with the k-th final response, in order, interim responses left out and HEAD responses without body |
| Pairing.TapPairsAtClose | rust/tls/src/har.rs:319-330 | The same when the last response runs until the close: once the connection is closed it stands with its request too, with exactly the body that came until then |
| TapReports.TapReportsInOrder | rust/tls/src/har.rs:342-471 | The theorem of `Pairing.TapPairsInOrder` told by the bytes alone: the k-th transaction has the words, fields, head size and body of the k-th request and of the k-th final response, and as host the first Host field or else the name of the TLS session; of a body the front up to 512 KiB is kept, its true size is counted, and truncation is flagged exactly when there was more |
| TapReports.TapReportsAtClose | rust/tls/src/har.rs:319-330 | The same when the last response runs until the close |
| TapReports.SwitchReported | rust/tls/src/har.rs:431-438 | A 101 response is reported with the request it answers, and the tap is off from then on |
| Pairing.RunPairs | rust/tls/src/har.rs:342-471 | At every moment of such a run, whether or not the last response runs until the close, exactly the final responses that have come whole have been reported, each with its own request, and the tap stands in the others |
| Pairing.DrainingRequests | rust/tls/src/har.rs:342-382 | Draining finishes every request that has come whole, in order, and nothing more |
| Pairing.DrainingResponses | rust/tls/src/har.rs:397-449 | Draining takes every response that has come whole, in order, and pairs the final ones |
| HttpTap.HttpTap.Feed | rust/tls/src/har.rs:296-313 | The object follows the model in both directions |
| HttpTap.HttpTap.ConnectionClosed | rust/tls/src/har.rs:319-330 | A close-delimited response is completed by the close, and the tap is then off |
| HttpTap.HttpTap.ReadBody | rust/tls/src/har.rs:117-146 | Reading a body in each framing: step, what is left of the body, and what is left of the buffer |
| Calendar.FollowsTheCalendar | rust/tls/src/har.rs:887-898 | Day 0 is 1970-01-01, every integer day has a date with month and day in range, and the date of the next day is the calendar's next date |
| Calendar.YearFound | rust/tls/src/har.rs:891-893 | The year of the era is the one whose days the day is among |
| TunRoutes.ComplementRoutes | app/src/main/java/io/github/sylirre/adwarden/vpn/TunRoutes.kt:33-49 | Fails if and only if some text is not four octets, a slash and a number from 0 to 32. Otherwise the routes are sorted, aligned and disjoint, hold exactly the addresses that have the prefix of none of the texts, each aligned block of those addresses lies within one route, and no list of blocks that holds exactly these addresses is shorter |
| TunRoutes.MergeBlocks | app/src/main/java/io/github/sylirre/adwarden/vpn/TunRoutes.kt:51-64 | Merging keeps exactly the covered addresses and leaves blocks more than one address apart |
| TunRoutes.RangeToCidrs | app/src/main/java/io/github/sylirre/adwarden/vpn/TunRoutes.kt:66-79 | The nested loops end and produce the greedy decomposition of the range |
| TunRoutes.GreedyTiles | app/src/main/java/io/github/sylirre/adwarden/vpn/TunRoutes.kt:66-79 | The greedy blocks are aligned and tile the range exactly |
| TunRoutes.GreedyMaximal | app/src/main/java/io/github/sylirre/adwarden/vpn/TunRoutes.kt:66-79 | Every aligned block within the range lies within one greedy block |
| TunRoutes.RoutesAround | app/src/main/java/io/github/sylirre/adwarden/vpn/TunRoutes.kt:37-48 | The loop over the gaps: its routes are the complement of the merged blocks |
| TunRoutes.RoutesAreFewest | app/src/main/java/io/github/sylirre/adwarden/vpn/TunRoutes.kt:28-49 | No exact cover of those addresses by CIDR blocks has fewer entries than the routes |
| TunRoutes.ParseCidrIff | app/src/main/java/io/github/sylirre/adwarden/vpn/TunRoutes.kt:81-88 | A text is read if and only if it says an address and a prefix length, and it then stands for exactly the addresses with that prefix |
| CidrText.PrintedSpells | app/src/main/java/io/github/sylirre/adwarden/vpn/TunRoutes.kt:81-104 | The text of an address, a slash and a number from 0 to 32 says just this address and this length |
| Cidr.PrefixMaskClears | app/src/main/java/io/github/sylirre/adwarden/vpn/TunRoutes.kt:81-91 | Masking with a prefix clears exactly the host bits |
| Cidr.AddressRoundTrip | app/src/main/java/io/github/sylirre/adwarden/vpn/TunRoutes.kt:93-104 | Printing an address and reading it back gives the address |
| Cidr.Nested | app/src/main/java/io/github/sylirre/adwarden/vpn/TunRoutes.kt:66-79 | Of two aligned blocks that meet, the smaller lies within the larger |
| H2.SegmentationIndependent | rust/tls/src/h2.rs:127-154 | However the input is cut, output, requests, streams and failure are those of the whole |
| H2.RequestsCarryTheirData | rust/tls/src/h2.rs:357-406 | Under any interleaving of streams, resets and responses, the k-th request surfaced at a moment of its own, with exactly the unpadded data its stream had received since it was opened; a stream that surfaces twice was removed and opened again in between |
| H2Ends.RequestsSurfaceAtTheEnd | rust/tls/src/h2.rs:330-406 | Each request surfaced when the frames of its stream had told a whole header block and the end of the stream, and its method, path, authority and content type are the last values under those names in the fields decoded for the stream; and while the connection has not failed, every stream of which the frames tell both, with no header block under way, has surfaced since it was opened |
| H2Ends.ReadyMeans | rust/tls/src/h2.rs:269-328 | A stream that is told to be ready has had a frame that ends its headers and one with END_STREAM, and has not been removed since either |
| H2Bytes.BytesAreFrames | rust/tls/src/h2.rs:127-253 | From bytes, with responses and the taking of output and requests at any moments, the server stands where the run over the frames cut from those bytes stands |
| H2Bytes.RequestsFromBytes | rust/tls/src/h2.rs:127-406 | `H2.RequestsCarryTheirData` and `H2Ends.RequestsSurfaceAtTheEnd` from bytes: whatever input arrives in whatever pieces, each request has the unpadded data of its own stream, surfaces at the end of that stream, says what its headers said, and none is withheld while the connection has not failed |
| H2Bytes.ServerSends | rust/tls/src/h2.rs:127-154 | Until the connection fails, what the server sends by itself is its SETTINGS and a connection window, once and first, and then an acknowledgement of each SETTINGS and each PING of eight octets back, in order |
| H2.ParseSplit | rust/tls/src/h2.rs:203-253 | Parsing in two goes is parsing at once |
| H2.FrameRoundTrip | rust/tls/src/h2.rs:192-201 | A frame that was written is read back, and what follows is left alone |
| H2.DataPadding | rust/tls/src/h2.rs:357-372 | Padding comes off DATA as it was put on |
| H2.HeadersPadding | rust/tls/src/h2.rs:269-299 | Padding and priority come off HEADERS as they were put on |
| H2Server.HeaderBlocksContiguous | rust/tls/src/h2.rs:269-355 | HPACK has at every moment decoded exactly the contiguous runs of a HEADERS frame and its CONTINUATION frames, whole, in order, never mixed with another stream's, if and only if every CONTINUATION out of place was empty and did not end the headers |
| H2Server.HarmlessBlocks | rust/tls/src/h2.rs:312-328 | For one CONTINUATION out of place: the blocks are still the contiguous runs if and only if it is empty and does not end the headers |
| H2Server.HeaderBlocksHeard | rust/tls/src/h2.rs:269-355 | Over every run, those included in which CONTINUATION frames come out of place, the decoded blocks are those that a listener puts together: what a stray carries is kept for its stream, decoded at once if it ends the headers, and otherwise put in front of the next block of that stream |
| H2Server.StrayIsKept | rust/tls/src/h2.rs:312-328 | A CONTINUATION out of place is not refused, as section 6.10 of RFC 9113 asks. With the next HEADERS frame of its stream, what it carried behind what was kept before is decoded at the head of the next block, or as a block of its own if it ended the headers |
| H2Server.ResponseReads | rust/tls/src/h2.rs:157-190 | A peer reads of a response one HEADERS frame that ends the headers, then the whole body in order in frames of at most 16 KiB, the last one ending the stream |
| H2Server.ResponseFieldsRead | rust/tls/src/h2.rs:157-166 | The fields of a response are its status first, its content type, and the size of its body, and no others |
| H2Server.TakingChangesNothing | rust/tls/src/h2.rs:117-125 | Taking output and requests between two inputs changes nothing else |
| H2Server.H2Server.OnInput | rust/tls/src/h2.rs:127-154 | The object's frame loop is the model's |
| H2Server.H2Server.Respond | rust/tls/src/h2.rs:157-190 | A response is queued whole and its stream forgotten |
| Forwarder.Forwarder.Run | rust/core/src/forward.rs:1094-1300 | After any sequence of operations, replies and handshakes that end included, the routes are exactly the tokens of live sessions, the registered sockets are the routed ones, each DNS table holds at most 64 jobs, TCP sessions belong to flows of the stack, and no token is used twice |
| Forwarder.Forwarder.Step | rust/core/src/forward.rs:1300-2650 | Each operation keeps all of this |
| Sessions.RoutesCountSessions | rust/core/src/forward.rs:853-857 | There are as many routes as live sessions need: one each, and two for a SOCKS association |
| Sessions.NeverAgain | rust/core/src/forward.rs:853-857 | A token that was in use and is not any more never comes back |
| Forwarder.Forwarder.OnTcpPacket | rust/core/src/forward.rs:1300-1367 | A fresh SYN that can be served opens one session under one new token; each way to fail leaves the tables as they were, but for a token used up |
| Forwarder.Forwarder.SweepClosed | rust/core/src/forward.rs:1094-1100 | Finished flows leave both the session table and the stack, each once |
| Forwarder.Forwarder.TeardownTcp | rust/core/src/forward.rs:1898-1911 | A session goes with its route and its registration, and nothing else goes |
| Forwarder.Forwarder.ForwardUdp | rust/core/src/forward.rs:1938-1968 | A known pair of addresses is stamped; an unknown one gets one new session |
| Forwarder.Forwarder.ReapUdp | rust/core/src/forward.rs:2026-2044 | Exactly the idle sessions go |
| Forwarder.Forwarder.UdpReply | rust/core/src/forward.rs:2011-2019 | A reply stamps its session anew, and changes nothing else |
| Forwarder.Forwarder.ForwardUdpSocks | rust/core/src/forward.rs:2046-2097 | An association takes two tokens; when the second socket fails the first is taken back |
| Forwarder.Forwarder.TeardownSocks | rust/core/src/forward.rs:2251-2258 | Both tokens of an association go with it |
| Forwarder.Forwarder.ReapSocks | rust/core/src/forward.rs:2260-2275 | Exactly the idle associations go |
| Forwarder.Forwarder.SocksReply | rust/core/src/forward.rs:2235-2240 | A reply through the relay stamps its association anew, and changes nothing else |
| Forwarder.Forwarder.SocksReady | rust/core/src/forward.rs:2187-2226 | An association whose relay connects is no handshake any more; one whose relay does not goes, with both tokens |
| Forwarder.Forwarder.SocksRefused | rust/core/src/forward.rs:2171-2179 | An association that the proxy refuses goes, with both tokens, and UDP support is withdrawn exactly if there was one |
| Forwarder.Forwarder.TcpReady | rust/core/src/forward.rs:1632-1636 | A session whose tunnel is open is no handshake any more, so that it is not reaped as one |
| Forwarder.Forwarder.ReapProxyHandshakes | rust/core/src/forward.rs:2277-2306 | Exactly the handshakes older than the limit go, of both kinds, and UDP support is withdrawn exactly if an association was among them |
| Forwarder.Forwarder.ForwardDnsOverProxy | rust/core/src/forward.rs:2308-2343 | A job is added unless the table is full, the query is too long or there is no proxy |
| Forwarder.Forwarder.ReapDnsTcp | rust/core/src/forward.rs:2444-2455 | Exactly the jobs older than the limit go |
| Forwarder.Forwarder.ForwardDnsTls | rust/core/src/forward.rs:2462-2515 | The same table discipline for encrypted upstreams |
| NetStack.NetStack.OnTcpPacket | rust/netstack/src/stack.rs:122-154 | A flow is created exactly for a fresh SYN of an unknown tuple below the cap whose socket can listen; its number is new; `by_tuple` stays the exact inverse of the flows' tuples |
| NetStack.NetStack.Poll | rust/netstack/src/stack.rs:158-177 | Each flow whose socket is closed is reported once |
| NetStack.NetStack.RemoveFlow | rust/netstack/src/stack.rs:249-255 | A flow leaves both maps |
| Verdicts.RunCalls | rust/core/src/forward.rs:685-705 | Over any run, each packet, its verdict cached or fresh, is blocked if and only if its owner is known and under a rule that does not allow the network of that moment; transports other than Wi-Fi and cellular are never restricted |
| Verdicts.Firewall.Decide | rust/core/src/forward.rs:790-818 | The verdict agrees with the policy, its owner is the cached or asked one, and the cache order changes as an access does |
| Verdicts.Firewall.SetFirewall | rust/core/src/forward.rs:685-688 | New rules empty the cache |
| Verdicts.Firewall.SetTransport | rust/core/src/forward.rs:690-698 | The cache is emptied exactly when the transport changes |
| FlowTable.HoldsMostRecent | rust/netstack/src/flow_table.rs:41-98 | A cache that is asked for keys and filled on each miss holds exactly the most recently used distinct keys, as many as it has room for |
| FlowTable.FlowTable.Get | rust/netstack/src/flow_table.rs:60-65 | A hit returns the value and makes the key the most recent; values are unchanged |
| FlowTable.FlowTable.Insert | rust/netstack/src/flow_table.rs:72-78 | The key becomes the most recent; a key goes only if a new one meets a full table, and then it is the least recent |
| FlowTable.FlowTable.EvictLru | rust/netstack/src/flow_table.rs:89-98 | Stamps are distinct, so that the entry that goes is determined |
| FlowTable.FlowTable.Oldest | rust/netstack/src/flow_table.rs:89-98 | The entry with the smallest stamp is the least recently used, in whatever order the table is walked |
| FlowTable.FlowTable.Remove | rust/netstack/src/flow_table.rs:80-83 | The entry goes and the order of the others stays |
| Relay.Flow.SentInOrder | rust/core/src/forward.rs:1103-1203 | What the socket has taken is the messages of the proxy's own handshake machine for what it was fed, in order, and then a prefix of the app's bytes, each once; while the handshake goes on no app byte is taken or queued; what is taken, pending and kept together is all of it |
| Relay.RunFlow | rust/core/src/forward.rs:1103-1203 | Over every run of a flow from its beginning - bytes from app and proxy in any order and pieces, partial writes, errors, the end of the proxy's stream, late classification - the socket takes a prefix of the handshake machine's messages and then of the app's bytes, unless the flow goes into a splice; once the tunnel is open, what it has taken and what is kept are together all of them. The tunnel is open only if that machine is done, and what the machine hands on goes to the app |
| Relay.Flow.Run | rust/core/src/forward.rs:1103-1203 | Any sequence of events keeps the order of `Relay.Flow.SentInOrder`; nothing that was taken is taken back, and every byte of the app and the proxy is accounted for |
| Relay.Flow.DriveHandshake | rust/core/src/forward.rs:1568-1665 | Under any partial writes the machine's messages are queued once, in order, and none while an earlier one is unsent; when it is done, all have been taken |
| Relay.Flow.HandshakeStep | rust/core/src/forward.rs:1606-1665 | One step of the machine: its message is queued behind those before it, and the flow fails, waits, is open or goes on as the step says |
| Proxy.StepsMore | rust/core/src/proxy.rs:255-281 | Feeding the handshake machine one more piece adds one step to the conversation |
| Relay.Flow.FlushHandshakeOut | rust/core/src/forward.rs:1670-1690 | Whatever part the socket takes, sent and pending bytes together stay the same |
| Relay.Flow.FlushToUpstream | rust/core/src/forward.rs:1704-1730 | The same for the app's bytes |
| Relay.Flow.Service | rust/core/src/forward.rs:1103-1203 | Once the tunnel is open, app bytes are appended once, behind what is pending |
| Relay.Flow.ClassifyPending | rust/core/src/forward.rs:1422-1494 | Bytes kept while the server name is unknown are handed on whole and once, to where the name decides |
| Sni.PeekStable | rust/tls/src/sni.rs:33-52 | Once there is an answer, more bytes never change it |
| Sni.ClassificationIndependent | rust/core/src/forward.rs:1422-1450 | However a stream whose first record fits is cut, the flow waits exactly while the name cannot be told, keeps everything meanwhile, and then settles on the name that the whole stream shows |
| Sni.CapMeansAnswer | rust/core/src/forward.rs:1422-1450 | The peek cap fires only on a record that does not fit |
| Sni.PeekFindsName | rust/tls/src/sni.rs:33-96 | The name read off a ClientHello record is the one its first server_name extension gives, whatever follows |
| Sni.ServerNameReads | rust/tls/src/sni.rs:98-120 | A host name that was written is read back in lower case |
| Sni.ScanClientHello | rust/tls/src/sni.rs:54-96 | The position loop over the extensions |
| Sni.ScanServerName | rust/tls/src/sni.rs:98-120 | The position loop over the server names |
| HttpForward.SegmentationIndependent | rust/core/src/http_forward.rs:49-91 | Pushing in pieces is pushing at once, unless a piece ended in a head already over the limit |
| HttpForward.CutNeverMatters | rust/core/src/http_forward.rs:49-91 | With heads within the limit every cut gives what one push gives |
| HttpForward.NoCutTooLargeIff | rust/core/src/http_forward.rs:66-71 | No cut of a stream is refused for the length of a head if and only if each head, the last unfinished one included, is within the limit until its end is there |
| HttpForward.DeletingRecovers | rust/core/src/http_forward.rs:93-141 | Taking the insertions out of what was sent gives back what came in, but for the head still held |
| HttpForward.HeadComesOut | rust/core/src/http_forward.rs:49-141 | A head whose target begins with a slash comes out with the scheme and the last Host, or the fallback if that is missing or blank, in front of that target; any other head comes out as it is. Then comes the body that the last Content-Length says; a chunked coding is refused |
| HttpForward.HeaderReads | rust/core/src/http_forward.rs:155-160 | A header line is its name up to the first colon and its value, without the white space at the colon |
| HttpForward.RewritingAgainIsIdentity | rust/core/src/http_forward.rs:93-141 | Sent through a second rewriter, cut in any way, the output of any pushes comes out as it is |
| HttpForward.LastWins | rust/core/src/http_forward.rs:104-124 | The last Host and the last Content-Length win; a length that does not parse counts as none |
| HttpForward.RewriteHead | rust/core/src/http_forward.rs:93-141 | The head as rewritten, and each way it is refused |
| HttpForward.HttpForward.Push | rust/core/src/http_forward.rs:49-91 | The loop ends, with the model's output, state and error |
| Dns.ScanName | rust/dns/src/lib.rs:126-168 | The loop over labels and pointers ends on every buffer, cycles included, with the model's result |
| Dns.SelfPointerFails | rust/dns/src/lib.rs:151-164 | A pointer to itself is no name |
| Dns.NameRoundTrip | rust/dns/src/lib.rs:126-168 | A name that was written reads back as its labels in lower case, and ends where it ends (section 4.1.4 of RFC 1035) |
| Dns.CompressedReads | rust/dns/src/lib.rs:151-164 | Labels and then a pointer are read as those labels and the name that stands where it points, and the name ends behind the pointer |
| Dns.QuestionReads | rust/dns/src/lib.rs:104-124 | The question of a query that was written has its labels in lower case with one dot between neighbours, and its type and class |
| Dns.QueryIff | rust/dns/src/lib.rs:104-124 | A message is a standard query if and only if it has a header with no response bit, opcode 0 and a question count, and a question that can be read; its id is the first two octets |
| Dns.BuildResponse | rust/dns/src/lib.rs:172-190 | The header bytes overwritten in place |
| Dns.NxDomainAnswers | rust/dns/src/lib.rs:172-194 | The answer has the query's id, exactly the flags response, recursion available, the query's recursion bit and NXDOMAIN, no records, no question byte lost, and for an uncompressed name it parses to the same question |
| Dot.EachFrameOneWay | rust/tls/src/dns.rs:113-151 | Each whole frame goes exactly one way, in order: as it is to the resolver, or, if and only if its parsed name is blocked, as one answer to the app; an unfinished frame is kept |
| Dot.WrittenQueryRouted | rust/tls/src/dns.rs:113-151 | A query that was written is answered if the name of its labels is blocked, and passed on as it is if not |
| Dot.SegmentationIndependent | rust/tls/src/dns.rs:113-151 | However the stream is cut, the same bytes go the same ways |
| Dot.AnswerWhole | rust/tls/src/dns.rs:154-158 | The answer always fits its length field, so that nothing of it is cut off |
| Dot.Dot.OnAppData | rust/tls/src/dns.rs:113-151 | The object follows the model, and `passthrough` is never set |
| Proxy.ScheduleIndependent | rust/core/src/proxy.rs:255-281 | Within the buffer cap, however the proxy's bytes are cut and wherever the driver has to wait after a write, the same messages are written, the outcome is the same, and exactly the bytes after the reply are handed on |
| Proxy.SocksDone | rust/core/src/proxy.rs:319-441 | A SOCKS5 handshake is done if and only if the proxy chose no authentication, or an offered password method and then status 0, and then a whole reply with version 5, REP 0 and a known address type. What the client said on the way reads, by sections 3 and 4 of RFC 1928 and section 2 of RFC 1929, as an offer of no authentication, with passwords exactly if there is a user, then the first 255 octets of user and password if asked for, then the command with the target's octets and port; it says nothing else in any case |
| Proxy.BoundReads | rust/core/src/proxy.rs:468-485 | The address that a reply binds is read from it as it was written, for IPv4 and IPv6 |
| Proxy.HttpDone | rust/core/src/proxy.rs:297-316 | A CONNECT is done if and only if the second word of the first line of a whole head is a number from 200 to 299; the bytes after the head are handed on |
| Proxy.Handshake.StepOn | rust/core/src/proxy.rs:255-281 | The object's step is the model's, in every phase |
| Proxy.Handshake.DriveOn | rust/core/src/forward.rs:1602-1665 | The driver's loop ends, with the model's messages and outcome |

## Left out

- Messages.StreamDelivered: 101 responses and malformed chunking turn the rewriter off, and no message follows them; their bytes are covered by `HeadRoutes.SwitchTurnsOff` and `Conservation`.
- Exchange.ConnectionDelivered: requests with a chunked body, and heads that cannot be read, make the request side give up and are the subject of `Exchange.GivingUp`, as are all other ways to give up.
- Exchange.GivingUp: a response that is held loses its head, and possibly a part of its body; which part is what the scan holds.
- Reframing.OutputIsMessage: needs heads of unfolded CRLF lines whose length line the editor knows, which is the condition of `HeadReparse.LengthRewritten`.
- HeadReparse.LengthRewritten: heads with bare LF or folded lines are not covered, because the parser and the editor cut them differently.
- Pairing.TapPairsInOrder: a 101 response ends the tap's run and is the subject of `TapReports.SwitchReported`; timestamps, the status text and lossy decoding of text are left out of the recorded values.
- HttpForward.RewritingAgainIsIdentity: needs authorities that are UTF-8 without space and CR, and heads that still fit the limit after the insertion, because otherwise the second rewriter reads another request line or refuses the head.
- Forwarder.Forwarder.Run: sessions carry only what the tables depend on; what is relayed over one flow is modelled in `Relay`.
- Relay.RunFlow: the output of a TLS splice is not followed, and neither is the TLS session to an HTTPS proxy; the theorem ends where the bytes enter the splice, and starts where the proxy's bytes are plain.
- Proxy.ScheduleIndependent: the text of the CONNECT request, with its base64 credentials, is a parameter.
- H2.RequestsCarryTheirData: HPACK is a function parameter of the blocks decoded so far.
- TunRoutes.ParseCidrIff: Kotlin's `toInt` also accepts digits outside ASCII; the model reads ASCII digits only.
- FlowTable.FlowTable.Get: the tick is unbounded; a 64-bit counter is taken not to wrap. The same holds for tokens and flow numbers.
- `FlowTable::retain` is not modelled: nothing modelled here calls it.
- Socket readiness, JNI, the TUN device, smoltcp's TCP, rustls, certificates, HPACK and the filter engine are libraries or input and output.
- HAR and pcapng output, event and firewall encodings, base64, and SOCKS UDP headers would only add easy members.
- DNS over HTTPS beyond its framing, configuration, and the routing choices per packet are decision tables.
- The Kotlin user interface, storage and service life cycle are not part of this model.
