# Verified model of the shop server's C libraries

The server is built on five small stateful C components in `server/libs`. This project models
each of them in Dafny and proves what it is for. Code that changes memory step by step is
modelled as classes and loops over arrays, each proved equal to a specification function; the
theorems are about those functions and hold for all inputs or all runs.

| file | component |
|---|---|
| `CStrings.dfy`, `Numbers.dfy` | NUL-terminated strings, `%d` and `atoi`, and what the conversions compute in positional notation |
| `LibTstr.dfy` | the one-pass substring search and the buffer append of libtstr.c |
| `HttpText.dfy` | field lines of HTTP messages and a reference reader (RFC 9112, section 5) |
| `HttpParser.dfy`, `HttpRequests.dfy`, `HttpTruncated.dfy`, `HttpBadLines.dfy` | the request parser, its exact verdict on complete requests, on cut ones and on lines without a separator |
| `HttpResponse.dfy` | the response serializer of httpserver.c |
| `HttpServer.dfy`, `HttpServerRuns.dfy`, `HttpServerSlots.dfy` | the connection slots: steps, whole runs, arrays |
| `Json.dfy`, `Pjsonb.dfy` | JSON values with a reference reader (RFC 8259), and the streaming builder |
| `Tablec.dfy`, `TablecRuns.dfy`, `TablecResize.dfy`, `TablecTable.dfy` | the hash table: operations, runs, resize, arrays |
| `QueryParser.dfy`, `QueryRoundTrip.dfy`, `QueryStops.dfy`, `QueryChunks.dfy` | the query-string automaton, what it stores, how it stops, and what it does on any text |
| `ProductList.dfy` | the product list of main.c from rows to response bytes |
| `Powers.dfy` | powers |

Where the code, on its own inputs, can run into behaviour that C leaves undefined (a read or write
outside a memory block, a NULL key, a number too large for `atoi`), the operation has a separate
outcome for it: `None` from the searches, the appends, the response writer, the resize and the
product list, `Undefined` from the request parser and the query parser. Theorems say exactly when
it arises: `ExactAcceptance`, `CutBefore`, `CutByTwoNuls` and `BadLineVerdict` for requests,
`StopsExactly` and `ParsedByChunks` for query strings, `ResizeMoves` for the resize, and the
contracts of `Append`, `SendResponse` and `ListProducts`. For requests they leave out blank
content-length values. The preconditions that remain are demands on the caller: an index or slot
that exists, a length within the buffer, strings that are terminated, a positive number of buckets,
a state that earlier calls can have left.

What a statement compares with is spelled out in it or defined apart from the code: method names,
limits, letters and digits as literals, numbers by position, a JSON reader and a response reader
with their own brackets and version, a printer without state, rules for the marks of a query.

## What does not hold in general, and exactly when it does

- **The search is not a first-occurrence search.** A mismatch consumes its character, so `"a:: b"`
  hides `": "` (`DoubledColonHidesDelimiter`). For every delimiter the repository uses, the first
  occurrence `p > 0` is reported if and only if the run of the delimiter's first character that
  touches `p` from the left has even length (`FirstOccurrence`); behind hidden occurrences the
  first visible one is reported (`ReportsVisible`). A match at index 0 is never representable
  (`MatchAtZero`), and a search that reaches the NUL reports the part of the delimiter the text
  ends in as if it were all of it (`Absent`). `FoundExactly` puts this together: it says for every
  text whether a search for ": ", CRLF or CRLFCRLF claims a match.
- **A blank line is not required.** The first test lets a request through if and only if a blank
  line is visible, or its text is longer than a lone CR and ends in CR, CRLF or CRLFCR that the
  search has not run past, or two NULs follow the text (`FirstTestExactly`). A request cut off by a
  NUL after one to three characters of its blank line gets the verdict of the complete request,
  fields included (`CutInside`, `MissingBlankLineAccepted`). Cut off before the blank line, it is
  rejected (`CutBefore`) unless two NULs follow; then it also gets that verdict, except that the
  last copy needs a byte more (`CutByTwoNuls`).
- **CONNECT and OPTIONS do not fit.** They are the listed methods that, with their terminator, need
  more than `char method[7]` (`MethodsTooLong`).
- **Fields of any size are copied.** A name over 63 characters, a value over 1023 or a
  content-length too large for an `int` is undefined if and only if the method fits and is listed,
  the version is 1.1 and fewer than `headers_max_length` fields come before the first such field
  (`ExactAcceptance`).
- **The space after the colon is not optional.** On a line without ": " the search for it runs into
  the text after the line. If it claims to find something there, the length of the value is
  negative, which is undefined while the table has room; otherwise the request is rejected, unless
  the block ends at its NUL and the search reads past it (`BadLineVerdict`).
- **The JSON builder does not print every tree.** A number without a key loses its last byte
  (`UnkeyedNumberLost`) and an array followed by a sibling loses the comma. The output is the
  compact text if and only if the tree has neither (`BuiltExactly`). Text is not escaped: the output
  reads back as the tree if and only if the tree has neither, has keys exactly in its objects, and
  holds no quote, backslash or control character (`BuildRoundTrip`).
- **The table's own length is not the number of entries.** The growth path does not count, and
  deletions wrap below zero; the exact law is `CounterLaw`. A resize can therefore drop everything
  (`ResizeCanLoseEverything`), it never looks at the last slot of a bucket with several pairs, and
  it takes slot 0 of a bucket with one pair even when that slot is empty, whose NULL key the hash
  dereferences (`ResizeCanHashNull`). It is defined if and only if `Resizable` holds, and defined
  and content-preserving if and only if `Resizable` and `Keeps` hold (`ResizeExactly`), for every
  table and every positive capacity.
- **A query value may be empty only at the end, and holds no `=` or `?`.** After an empty value the
  next key is written at an offset. An `=` before more of a value empties the key (`InnerEquals`), one
  at the end is dropped (`TrailingEquals`), and what follows a `?` goes into the key
  (`InnerQuestion`). The parser stores the first pairs, as many as fit, if and only if every stored
  value before the last one is non-empty and no stored value holds such a mark (`StoresExactly`);
  a key without `=` counts as one with an empty value. On any text at all, each stretch between two
  marks does what one rule says (`ParsedByChunks`). A key that ends at index 64 before a value, or a value of
  1024 characters, passes the checks and is terminated past its buffer; how the parser stops is
  exact for all lengths (`StopsExactly`).
- **The response length assumes a three-character status and a measured body.** A shorter status
  leaves bytes unwritten, and a body of length 0 falls back to the terminator. The precomputed
  length is right if and only if the two amounts are equal, and the writes stay in the block if and
  only if the second is not larger (`LengthExactly`).
- **Content-Length of the product list** is cut to nine characters, so it is right if and only if the
  body is shorter than 10^9 bytes (`LengthTextExactly`).

The product handler reads the price from the image column (`server/main.c:192`), although the table
has a price column (`server/main.c:1243`); the model follows the code.

## Model

| member | source | states |
|---|---|---|
| `LibTstr.FindBetween` | server/libs/libtstr.c:10-73 | the search loops, including rescans past a NUL and the look at the byte after it, compute `Find`; a read outside the block is its own outcome |
| `LibTstr.FirstOccurrence` | server/libs/libtstr.c:39-62 | for " ", ": ", CRLF and CRLFCRLF the first occurrence p > 0 is reported iff an even run of the delimiter's first character precedes it, although the loop never backs up |
| `LibTstr.MatchAtZero` | server/libs/libtstr.c:49-49 | a match at index 0 is reported as 1, or as 0 for the space, which reads as not found |
| `LibTstr.ReportsVisible` | server/libs/libtstr.c:39-62 | the first occurrence not hidden by an odd run is the one reported, whatever was hidden before it |
| `LibTstr.Absent` | server/libs/libtstr.c:41-72 | with no visible occurrence before the NUL, the end is the start of the part of the delimiter the text ends in, else the index after the NUL if that byte is NUL, else 0; which part it is, is decided by runs of the first character |
| `LibTstr.FoundExactly` | server/libs/libtstr.c:10-73 | a search from any start, with any end bound up to the NUL, claims a match iff there is a visible occurrence, or the text (unless it is one character) ends in a part of the delimiter, or a second NUL follows |
| `LibTstr.StartsOver` | server/libs/libtstr.c:69-72 | with an end bound beyond the NUL the search starts over behind it, unless a part of the delimiter is pending |
| `LibTstr.NeverBack` | server/libs/libtstr.c:41-59 | once the scan is past an index it can never report it, over all later passes |
| `LibTstr.DoubledColonHidesDelimiter` | server/libs/libtstr.c:53-58 | a concrete text whose ": " the search misses |
| `LibTstr.Append` | server/libs/libtstr.c:75-84 | the buffer up to the new length is the old prefix followed by the C string or the limited block, and the rest is untouched; undefined exactly when a read or write leaves its block |
| `CStrings.AtoiDecimal` | server/libs/httpparser.c:99-99 | reading back a printed number gives that number exactly when it fits an int |
| `CStrings.AtoiLocal` | server/libs/httpparser.c:98-99 | reading a header value inside a message gives the same number as reading the value alone, whatever byte that is no digit ends it |
| `Numbers.AtoiReads` | server/main.c:192-192 | on any text: after white space and a sign, the positional value of the longest run of digits, 0 if there is none, undefined beyond 32 bits |
| `Numbers.DecimalSpelled` | server/libs/pjsonb.c:34-68 | a printed number is an optional minus and digits without a leading zero that stand for it |
| `HttpText.ReadRendered` | server/libs/httpserver.c:328-335 | splitting written field lines gives back the fields and what follows the blank line |
| `HttpParser.CheckMethod` | server/libs/httpparser.c:23-31 | 0 exactly for the listed methods, else -1 |
| `HttpParser.ListedSpelled` | server/libs/httpparser.c:24-24 | the nine listed methods, spelled out |
| `HttpParser.ToLowerCase` | server/libs/httpparser.c:33-37 | each capital of the string becomes the small letter at its place in the alphabet, all other characters and the bytes after the terminator stay |
| `HttpParser.LowerAgrees` | server/libs/httpparser.c:33-37 | two names are equal once lower-cased iff they agree letter by letter up to case |
| `HttpParser.Request.constructor` | server/libs/httpparser.c:15-21 | an empty request over the caller's header buffer |
| `HttpParser.Request.GetHeader` | server/libs/httpparser.c:163-173 | the value of the first stored header with that name, or NULL |
| `HttpParser.Request.TakeTurn` | server/libs/httpparser.c:81-104 | one turn of the header loop stores one lower-cased header or stops with the verdict of `Turn` |
| `HttpParser.Request.WalkHeaders` | server/libs/httpparser.c:74-104 | the header loop ends in the state and verdict of `Walk` |
| `HttpParser.Request.TakeBody` | server/libs/httpparser.c:106-147 | the body is stored or the request refused as `ParseBody` says |
| `HttpParser.Request.Parse` | server/libs/httpparser.c:39-150 | verdict and every field of the structure are those of `Parsed`, on every path |
| `HttpRequests.LineTokens` | server/libs/httpparser.c:81-85 | in a field line of any length the two searches find the end of the line and the end of the name |
| `HttpRequests.LineCopies` | server/libs/httpparser.c:92-97 | the copies are name and value, or go past their buffer exactly when longer than 63 or 1023 |
| `HttpRequests.TurnOnField` | server/libs/httpparser.c:80-104 | one turn on any field line stores it, rejects when the table is full, or writes past a buffer exactly when the field overflows |
| `HttpRequests.LineNumber` | server/libs/httpparser.c:98-99 | the declared length is read from the start of the value and stops at its CR |
| `HttpRequests.WalkStep` | server/libs/httpparser.c:80-104 | one turn stores exactly the next field and moves strictly forward to the end of its line, never beyond the blank line |
| `HttpRequests.WalkAdvances` | server/libs/httpparser.c:75-104 | the loop takes a list of fields one by one, whatever follows them, or rejects when the table is full |
| `HttpRequests.WalkLands` | server/libs/httpparser.c:75-104 | the walk stops with equality at the blank line after exactly the fields present (zero included), or rejects when the table is full |
| `HttpRequests.WalkOverflows` | server/libs/httpparser.c:75-104 | at the first field that overflows the walk is undefined if the table has room for it, else rejects |
| `HttpRequests.HeadersEndFound` | server/libs/httpparser.c:40-43 | the blank line of a printed request is found where it is, whatever the body holds |
| `HttpRequests.LookupLowered` | server/libs/httpparser.c:106-110 | a lookup after parsing succeeds exactly when some field has that name up to case |
| `HttpRequests.ExactAcceptance` | server/libs/httpparser.c:39-150 | the verdict on every printed request, fields of any length and transfer codings included: undefined, rejected, chunked or accepted; accepted iff method listed and fitting, version 1.1, fields within the limits, and a declared body has a content-type and its length; then every field of the structure is known |
| `HttpRequests.RequestRoundTrip` | server/libs/httpparser.c:39-150 | for the seven methods that fit, any path, fields of at most 63 and 1023 characters with the names in any case, and any body of the declared length, parsing the text gives method, path, version, lower-cased field list and body back |
| `HttpRequests.MethodsTooLong` | server/libs/httpparser.c:24-24 | of the listed methods exactly CONNECT and OPTIONS overflow the method buffer |
| `HttpTruncated.FirstTestExactly` | server/libs/httpparser.c:40-43 | a request passes the test for a blank line iff one is visible, its text ends in an unfinished one, or two NULs follow; otherwise it is refused with nothing stored |
| `HttpTruncated.CutInside` | server/libs/httpparser.c:39-150 | a request that ends after one to three characters of its blank line gets the verdict and the stored fields of the complete one |
| `HttpTruncated.MissingBlankLineAccepted` | server/libs/httpparser.c:39-150 | request line and any field lines without a blank line are accepted iff the same request with one is, with the bytes left as its body |
| `HttpTruncated.CutBefore` | server/libs/httpparser.c:40-43 | without any character of the blank line the request is rejected unless a second NUL follows |
| `HttpTruncated.CutByTwoNuls` | server/libs/httpparser.c:39-150 | two NULs stand in for the blank line, exactly when the last copied text leaves room for one more byte |
| `HttpBadLines.TurnOnBadLine` | server/libs/httpparser.c:81-97 | on a line without a separator a turn stores nothing: undefined if the search claims a later one and the table has room, else rejected |
| `HttpBadLines.BadLineVerdict` | server/libs/httpparser.c:39-150 | the verdict on a request whose next line after the stored fields has no separator |
| `HttpBadLines.NoFirstSpace` | server/libs/httpparser.c:45-48 | a request without a space is rejected and nothing is stored |
| `HttpBadLines.NoSecondSpace` | server/libs/httpparser.c:55-58 | with one space only it is rejected once the method is stored |
| `HttpBadLines.NoVersionEnd` | server/libs/httpparser.c:64-67 | without a line end after the version it is rejected once method and path are stored |
| `HttpBadLines.VersionBeyondBlock` | server/libs/httpparser.c:64-65 | when at most five bytes follow the path the search for the version starts outside the block |
| `HttpResponse.CalculateLength` | server/libs/httpserver.c:291-312 | the loop computes the precomputed length |
| `HttpResponse.HeadersMeasured` | server/libs/httpserver.c:299-303 | the counted header length is the length of the written header lines |
| `HttpResponse.LengthExactly` | server/libs/httpserver.c:291-339 | for every status and body, the precomputed length equals the bytes written iff the uncounted body bytes make up for the characters a short status leaves out, and the writes fit iff they do not exceed them |
| `HttpResponse.ShortStatus` | server/libs/httpserver.c:295-323 | for shorter statuses fewer bytes are written than are sent |
| `HttpResponse.StatusSpelled` | server/libs/httpserver.c:321-323 | for any status the bytes written are the start of its decimal form |
| `HttpResponse.AppendHeaders` | server/libs/httpserver.c:328-333 | the header loop appends exactly the field lines |
| `HttpResponse.SendResponse` | server/libs/httpserver.c:314-344 | the block handed to the socket has the precomputed size and starts with status line, fields, blank line and body; undefined exactly when the body lacks its bytes or the writes exceed the block |
| `HttpResponse.ResponseRoundTrip` | server/libs/httpserver.c:314-339 | a reader that spells "HTTP/1.1 " and the line ends itself gets status, reason, fields and body back |
| `HttpServer.LengthIsLive` | server/libs/httpserver.c:62-71 | the counter equals the number of live connections |
| `HttpServer.FullMeansLength` | server/libs/httpserver.c:94-110 | when nothing is offered every slot is live, so the counter is the first index after growth |
| `HttpServer.AcceptOk` | server/libs/httpserver.c:84-111 | accepting keeps the free-list invariant, returns a slot nobody holds, doubles only when full and leaves every other slot as it was |
| `HttpServer.AcceptPlaces` | server/libs/httpserver.c:84-92 | a connection gets the slot the first entry in use offers, and just that entry becomes a hole |
| `HttpServer.AcceptExtends` | server/libs/httpserver.c:94-110 | with no entry in use it gets the first slot of the new half, and the rest of that half is offered |
| `HttpServer.HoleExists` | server/libs/httpserver.c:62-71 | the free list has a hole whenever a live slot is handed back |
| `HttpServer.DisconnectOk` | server/libs/httpserver.c:73-82 | disconnecting a live slot keeps the invariant, frees that slot only and lowers the counter by one |
| `HttpServer.DisconnectPlaces` | server/libs/httpserver.c:62-71 | the slot is handed back in the first hole |
| `HttpServerRuns.StepInv` | server/libs/httpserver.c:62-111 | every enabled step of any client keeps free list, block ownership and growth bounds |
| `HttpServerRuns.SlotsAreExclusive` | server/libs/httpserver.c:62-196 | in every reachable state the counter is right, the next accept gets an unheld slot and disconnects find a hole |
| `HttpServerRuns.GrowthBound` | server/libs/httpserver.c:94-110 | capacity is a power of two, 1 or at most 2*(peak-1), and all growths initialise capacity-1 cells |
| `Powers.PowerOfTwoSpelled` | server/libs/tablec.c:104-125 | the capacities called powers of two are 2 raised to their logarithm |
| `HttpServerRuns.PeakIsMax` | server/libs/httpserver.c:94-110 | the peak of the bound is the largest number of connections at any time of the run |
| `HttpServerRuns.OneBlockEach` | server/libs/httpserver.c:180-182 | each accept allocates one block and nothing else does |
| `HttpServerRuns.OthersUntouched` | server/libs/httpserver.c:94-209 | from any reachable state, a live slot keeps index, data, flag and block over any run of other clients' steps, growth included |
| `HttpServerRuns.CallsLast` | server/libs/httpserver.c:199-209 | the data set on a slot, or its upgraded flag, is there after any further run of other clients, beside what the slot held before |
| `HttpServerRuns.CallsAreLocal` | server/libs/httpserver.c:199-209 | setting data or the flag touches no other slot, nor the free list, nor the counter |
| `HttpServerRuns.FreedExactlyOnce` | server/libs/httpserver.c:49-82 | over any run ending in stop each allocated block is freed exactly once and nothing else is |
| `HttpServerSlots.Server.constructor` | server/libs/httpserver.c:36-46 | the server starts with one free slot |
| `HttpServerSlots.Server.AddAvailableSocket` | server/libs/httpserver.c:62-71 | the first hole takes the slot and the counter drops, or nothing changes when there is no hole |
| `HttpServerSlots.Server.DisconnectClient` | server/libs/httpserver.c:73-82 | the arrays change as `Disconnected` says and the block of the slot is freed |
| `HttpServerSlots.Server.Grow` | server/libs/httpserver.c:94-108 | both arrays double, old cells kept, new cells blank and offered except the one handed out |
| `HttpServerSlots.Server.SelectPosition` | server/libs/httpserver.c:84-111 | the slot and the arrays are those of `Selected`, growth included |
| `HttpServerSlots.Server.HandleAccept` | server/libs/httpserver.c:173-196 | one turn of the accept loop is the `Accepted` step |
| `HttpServerSlots.Server.SetSocketData` | server/libs/httpserver.c:199-201 | only the data of that slot changes |
| `HttpServerSlots.Server.GetSocketData` | server/libs/httpserver.c:203-205 | the data of that slot |
| `HttpServerSlots.Server.UpgradeSocket` | server/libs/httpserver.c:207-209 | only the flag of that slot changes |
| `HttpServerSlots.Server.StopServer` | server/libs/httpserver.c:49-60 | stop cancels exactly the live slots and frees exactly their blocks |
| `Json.ReadCompact` | server/libs/pjsonb.c:12-300 | the compact text of any value of any depth reads back as that value under the JSON grammar, with a reader that spells its own brackets |
| `Json.ReadIsPrintable` | server/libs/pjsonb.c:181-219 | whatever the grammar accepts is a value without text that needs an escape, and no shorter than its compact text |
| `Pjsonb.Builder.constructor` | server/libs/pjsonb.c:12-18 | the buffer starts with the opening bracket and no pending separator |
| `Pjsonb.Builder.SetNumber` | server/libs/pjsonb.c:34-104 | the text grows by key and digits, and by the comma only when there is a key; all writes stay in the requested block |
| `Pjsonb.Builder.SetBool` | server/libs/pjsonb.c:142-179 | the text grows by key, true or false, and comma, inside the requested block |
| `Pjsonb.Builder.SetString` | server/libs/pjsonb.c:181-219 | the text grows by key, quoted value and comma, inside the requested block |
| `Pjsonb.Builder.EnterObject` | server/libs/pjsonb.c:221-245 | the text grows by key and brace, no separator pending |
| `Pjsonb.Builder.EnterArray` | server/libs/pjsonb.c:263-287 | the text grows by key and bracket, no separator pending |
| `Pjsonb.Builder.LeaveObject` | server/libs/pjsonb.c:247-261 | the closing brace replaces a pending comma or is appended, then a comma follows: the text ends in "}," |
| `Pjsonb.Builder.LeaveArray` | server/libs/pjsonb.c:289-300 | the closing bracket replaces a pending comma or is appended, and no separator follows |
| `Pjsonb.Builder.End` | server/libs/pjsonb.c:20-28 | the closing bracket of the root replaces a pending comma or is appended |
| `Pjsonb.Builder.Realloc` | server/libs/pjsonb.c:24-24 | a block of the requested size that keeps every byte already emitted |
| `Pjsonb.TextSurvives` | server/libs/pjsonb.c:12-300 | over any sequence of calls, end included, the text never shrinks and only its last byte can change |
| `Pjsonb.PerformAll` | server/libs/pjsonb.c:12-300 | any sequence of calls stays inside its buffer and changes the text as `DoAll` says |
| `Pjsonb.BuiltIsPrinted` | server/libs/pjsonb.c:12-300 | for every tree, supported or not, the builder with its one flag prints what a stateless printer does, written out piece by piece |
| `Pjsonb.EmitSupported` | server/libs/pjsonb.c:142-300 | after a supported value TO_CLOSE holds iff the last byte is a separator, and the text is the old text and the compact value |
| `Pjsonb.EmitItemsSupported` | server/libs/pjsonb.c:142-300 | the same invariant for any list of children at any depth, with one flag and no stack |
| `Pjsonb.BuiltExactly` | server/libs/pjsonb.c:12-300 | the builder prints the compact text iff there is no unkeyed number and no array with a following sibling; otherwise exactly that many bytes are missing |
| `Pjsonb.BuildRoundTrip` | server/libs/pjsonb.c:12-300 | reading the buffer gives the tree back iff the tree is supported, has keys exactly in objects and holds no text that needs an escape |
| `Pjsonb.UnkeyedNumberLost` | server/libs/pjsonb.c:37-47 | an array of one number is printed empty |
| `Pjsonb.Build` | server/libs/pjsonb.c:12-300 | the calls a client makes for a tree leave the text of `Built`, compact iff supported |
| `Tablec.Hash` | server/libs/tablec.c:27-33 | the wrapping loop gives the base-37 polynomial of the unsigned bytes, wrapped once, modulo the capacity |
| `Tablec.HornerIsPolynomial` | server/libs/tablec.c:30-30 | the accumulator computes the sum of byte times power of 37 |
| `Tablec.SetAdds` | server/libs/tablec.c:60-130 | inserting adds exactly the pair and replaces none, and keeps table invariant and counter law |
| `Tablec.SetIntoEmpty` | server/libs/tablec.c:64-88 | an empty bucket takes the pair in slot 0 |
| `Tablec.SetIntoFree` | server/libs/tablec.c:90-102 | the highest free slot takes the pair, all others stay |
| `Tablec.SetIntoFull` | server/libs/tablec.c:104-128 | a full bucket doubles, keeps its slots and takes the pair at index length |
| `Tablec.GetFinds` | server/libs/tablec.c:132-143 | NULL iff no stored pair has the key, else a stored pair with that key |
| `Tablec.DelRemoves` | server/libs/tablec.c:145-161 | deleting removes exactly the pair a lookup finds, or nothing, and keeps invariant and counter law |
| `Tablec.HighestFirst` | server/libs/tablec.c:132-161 | of several pairs with the key, a lookup answers and a deletion clears the one in the highest slot |
| `Tablec.EmptyBucketIsBlank` | server/libs/tablec.c:64-88 | an empty bucket has an empty slot 0, so the second branch for empty buckets is never taken |
| `Tablec.KeyInBucket` | server/libs/tablec.c:62-62 | a key is stored in the table iff it is in the bucket of its hash |
| `TablecRuns.RunConserves` | server/libs/tablec.c:60-161 | over any run what is stored plus what was deleted is what was stored before plus what was inserted |
| `TablecRuns.ReachableLaw` | server/libs/tablec.c:13-161 | in every reachable table length plus the logarithms of the bucket capacities is congruent to the sum of bucket lengths, capacities are powers of two and bucket lengths count their pairs |
| `TablecRuns.TableIsMap` | server/libs/tablec.c:60-161 | with fresh keys every lookup after any run answers what a map would, for any number of insertions |
| `TablecResize.ResizeMoves` | server/libs/tablec.c:35-58 | a resize is defined iff every visited bucket that counts one pair holds it in slot 0, and then the table holds exactly the pairs the loops visited |
| `TablecResize.ResizeOrder` | server/libs/tablec.c:41-54 | buckets and slots are visited from the highest index down |
| `TablecResize.ResizeExactly` | server/libs/tablec.c:35-58 | in every table, a resize is defined and keeps the contents iff single pairs are in slot 0, the length has not wrapped to zero over pairs and no bucket with several pairs uses its last slot |
| `TablecResize.ResizeKeepsLookups` | server/libs/tablec.c:35-58 | on collision-free tables every key looks up to the same value after a resize, even where keys now collide |
| `TablecResize.ResizeCanLoseEverything` | server/libs/tablec.c:41-41 | two insertions and a deletion after which any resize loses a stored key |
| `TablecResize.ResizeCanHashNull` | server/libs/tablec.c:44-45 | three insertions and two deletions after which any resize hashes a NULL key |
| `TablecTable.Table.constructor` | server/libs/tablec.c:13-25 | every bucket starts with one empty slot of its own |
| `TablecTable.Table.SetFirst` | server/libs/tablec.c:64-88 | both branches for an empty bucket do what `BucketSet` says |
| `TablecTable.Table.SetFree` | server/libs/tablec.c:90-102 | the highest free slot takes the pair, or nothing changes when the bucket is full |
| `TablecTable.Table.SetGrown` | server/libs/tablec.c:104-128 | the bucket doubles, keeps its slots and takes the pair, and the table length stays |
| `TablecTable.Table.Set` | server/libs/tablec.c:60-130 | the arrays change as `SetState` says and no other bucket is touched |
| `TablecTable.Table.Get` | server/libs/tablec.c:132-143 | the slot of `GetState` |
| `TablecTable.Table.Del` | server/libs/tablec.c:145-161 | the arrays change as `DelState` says |
| `TablecTable.Table.Resize` | server/libs/tablec.c:35-58 | the new arrays hold `ResizeState` of the old ones; undefined exactly outside `Resizable` |
| `QueryParser.Info.constructor` | server/libs/queryparser.c:17-22 | every slot is zeroed and none is in use |
| `QueryParser.Info.Parse` | server/libs/queryparser.c:24-124 | buffers, count and the way the parser stops are those of the automaton |
| `QueryParser.Info.GetQuery` | server/libs/queryparser.c:126-135 | the first stored query with that non-empty key, or NULL |
| `QueryParser.FirstQuerySpelled` | server/libs/queryparser.c:126-135 | a lookup answers the least index whose key is not empty and is the key wanted, or NULL iff there is none |
| `QueryRoundTrip.NextPair` | server/libs/queryparser.c:48-75 | the ampersand and the first character of the next key commit the pair in progress, or stop at the limit |
| `QueryRoundTrip.StoresPairs` | server/libs/queryparser.c:24-124 | the pairs land in consecutive slots in order, each terminated, up to the limit |
| `QueryRoundTrip.EmptyValueSpoils` | server/libs/queryparser.c:57-71 | after an empty value the next slot keeps an empty key whatever follows |
| `QueryRoundTrip.StoresExactly` | server/libs/queryparser.c:17-124 | for values of any text without & and NUL, and keys with or without =, the first min(n, limit) pairs are stored exactly iff every stored value before the last is non-empty and no stored value holds = or ? |
| `QueryChunks.ParsedByChunks` | server/libs/queryparser.c:24-124 | on any URL, buffers, count and the way of stopping are what one rule for each mark and its text gives, without the state variable |
| `QueryChunks.InnerEquals` | server/libs/queryparser.c:38-86 | an = inside a value empties the key, so the pair is not counted and no lookup finds it |
| `QueryChunks.TrailingEquals` | server/libs/queryparser.c:38-42 | an = at the end of a value is dropped |
| `QueryChunks.InnerQuestion` | server/libs/queryparser.c:33-37 | after a ? inside a value, text overwrites the key from its start |
| `QueryRoundTrip.LookupStored` | server/libs/queryparser.c:126-135 | looking up stored pairs answers the first pair with the key, or NULL iff there is none |
| `QueryStops.PairCounted` | server/libs/queryparser.c:48-93 | one pair written from any key offset hits the key limit, the value limit, a write past the key, or leaves its counters |
| `QueryStops.StopsExactly` | server/libs/queryparser.c:24-124 | for any path and pairs, of any length and with empty values, how the parser stops: done, at which limit, or past a buffer |
| `ProductList.AddProduct` | server/main.c:183-195 | the calls for one row emit the object of that row |
| `ProductList.ListProducts` | server/main.c:179-228 | the bytes sent are the response for the text built from the rows, exactly when every price is an int |
| `ProductList.LengthTextExactly` | server/main.c:203-204 | the Content-Length text is the decimal length iff it is below 10^9, else its first nine digits |
| `ProductList.PathCostsNothing` | server/main.c:192-192 | an image column that holds a path, the ordinary content, gives the price 0 |
| `ProductList.NumberIsPrice` | server/main.c:192-192 | an image column that starts with a number gives that number as the price |
| `ProductList.EndToEnd` | server/main.c:179-228 | the client reads status 200, the three fields spelled out with a Content-Length equal to the body length, and a body that lists the rows in order with their five fields |

## Left out

- LibTstr.FindBetween: the forms with a start delimiter or without an end delimiter are not modelled; no caller uses them.
- HttpParser.Request.Parse: chunked transfer decoding is not modelled; such a request ends in the verdict `Chunked`.
- HttpParser.Request.Parse: buffers of the request structure are values read as C strings; only the lower-casing works on a character array.
- HttpRequests.ExactAcceptance: content-length values that are blank are not covered, here and in `HttpTruncated`; `atoi` would read on into the text after the line.
- HttpParser.LowerChar: `tolower` of a negative `char` (a byte from 128 up in a field name) is undefined in C; the model leaves such characters alone.
- QueryStops.StopsExactly: pairs with an empty key are not covered here, only by `QueryChunks.ParsedByChunks`.
- HttpResponse.SendResponse: the status text is a parameter; the table of texts is settled by reading it.
- Pjsonb.Builder.SetNumber: one method stands for the int and the size_t call, whose bodies agree; floats are not modelled.
- Pjsonb.Builder.Put: `position` is unbounded, so texts of 2^31 bytes or more are outside the model.
- Json.ReadCompact: the JSON reader covers integers, plain strings, booleans, objects and arrays without insignificant space, which is all the builder emits for plain text.
- TablecTable.Table.Set: keys are stored by content; a caller that changes a key string after inserting it is not captured.
- HttpServerSlots.Server.HandleAccept: each accept and each disconnect is one atomic step, as there is no lock; data races are not captured.
- HttpServerSlots.Server.Grow: `sockets_capacity` does not overflow.
- The slots of `available_sockets` and `sockets` are copied by value on growth; addresses held into the old blocks are not captured.
- Sockets, TLS and threads (csocket-server.c, pcll.c, cthreads.c): foreign calls; accept and disconnect are events.
- PostgreSQL access and the other route handlers of main.c: rows are inputs.
- Session identifiers (fq_utils.c): fresh keys are an assumption of the map theorem.
- malloc failure and the release of path, body and table memory.
- tstr_find_amount, tablec_full, tablec_cleanup: unused or without logic.
- Everything under web/.
