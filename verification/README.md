# eRisemail: message summaries, framing, queues and protocol sessions

This project models the parts of the eRisemail mail server that turn byte streams into structure and that keep
state over a long run, and proves what those parts promise.

* **The MIME summary.** Message text arrives in chunks of any size. `LetterSummary` cuts it into folded fields and
  builds a tree of nested byte ranges one field at a time (`Fields`, `Summary`, `SummaryObjects`, `LetterSummaries`).
  The tree does not depend on the chunks, and after every field its ranges tile the text at every depth (`Tiling`).
  `src/mime.cpp` holds a second, batch parser over a segment table (`Batch`); the two read a message completely and
  alike exactly when it is well-formed (`Agreement`). The tree is saved as XML and loaded again (`Archive`), and answers
  IMAP FETCH through a window cache over the file (`Fetch`), which sends the part the fields say (`FetchMeaning`). The
  letter itself is stored as a file and, in fragments, in the database (`LetterStore`).
* **Framing and buffers.** `linesock::lrecv` with `Session::Process` and `Session_Group::Poll` (`Framing`), the
  multipart/form-data scanner (`FormData`), `fbuffer` (`FileBuffer`).
* **Shared state.** The worker queues with their semaphore (`WorkerQueues`) and the connection pool
  (`ConnectionPool`), each as a machine whose steps interleave freely.
* **Binary decoders.** BER trees (`Ber`), LDAP message framing (`LdapFraming`, in `Ldap.dfy`), DNS names (`Dns`).
* **Sessions.** IMAP SEARCH (`Search`, `SearchMeaning`) and STORE (`Store`) over the attributes in `Mailbox`, and the
  SMTP session (`Smtp`, and `SmtpStatus` for its status bits and logins).

What the world does (which recv calls fail, which sends and storage operations succeed, what Parse answers to a line,
which connection attempts succeed, what a login check says) enters as a parameter, a function of the number of the
call or line, so the contracts say what the code does with every such outcome.

Objects that the source updates in place are classes; their contracts tie each new state to a function of the old
one, and the lemmas are about those functions. `unsigned int` counters are taken modulo 2^32 where the source stores
them. `Text` holds shared vocabulary.

## Where the code does not do what its documents ask

Each of these is a lemma, with the exact condition where there is one.

* The two MIME parsers do not read a message completely and alike when the text does not end in LF, when a header ends
  in a bare LF, when a body is missing, or when a marker follows the end marker of a multipart (RFC 2046 section
  5.1.1): `Agreement.MessagesAgree`; in the last case both may read it completely and still differ:
  `Agreement.BothCompleteButDifferent`.
* A header field such as Content-ID that occurs twice with different values is loaded with its first value, while
  the summary in memory held the last: `Archive.SaveLoad`, `Archive.RepeatedAttribute`.
* FETCH sends each chunk up to its first NUL, so a literal has the announced length only without NULs
  (RFC 3501 section 4.3): `Fetch.DeliveredExactly`. The same holds for protocol lines: `Framing.DeliveredLines`.
* FETCH follows a null pointer exactly when its path comes to a part without any field, as two markers in a row leave
  one: `Fetch.NullPointers`, `FetchMeaning.LetterFinds`, `FetchMeaning.MarkersInARow`.
* A chunk that holds a NUL goes whole to the letter's file, but only up to the NUL to the database and to the summary:
  `LetterStore.StoreLetter`.
* The idle drain of the service loop never gives its mutex back. A run gets stuck if and only if such a drain ends:
  `WorkerQueues.OnlyTheDrainSticks`, `WorkerQueues.DrainIsReachable`, `WorkerQueues.StuckForEver`.
* Slot 0 of the connection pool is never freed. It is in use from the first search that finds it:
  `ConnectionPool.SlotZeroTaken`, `ConnectionPool.EmptyHanded`; a pool of one gives out its connection once:
  `ConnectionPool.LeakIsReachable`, `ConnectionPool.PoolOfOne`.
* A constructed BER value of length zero makes the decoder read on: `Ber.ForestRoundTrip`, `Ber.EmptyReadsOn`.
* A DNS name is followed for ever when some name is met twice on its way. Reading ends if and only if none is and no
  name runs out of the buffer: `Dns.EndsIff`, `Dns.LoopNeverEnds`. Labels over 63 bytes do not survive:
  `Dns.EncodeRead`.
* SEARCH: NOT before a parenthesis is not applied to the group but to the next status key, NOT NOT negates once, and
  UNDRAFT, RECENT and OLD are never met (RFC 3501 section 6.4.4): `SearchMeaning.SearchSlides`, `Search.RightIffPlain`,
  `SearchMeaning.SearchErs`, `SearchMeaning.UndraftIsIgnored`, `SearchMeaning.RecentAndOldAreIgnored`. OR adds the
  messages of its two keys to those the keys before it let in, and ALL lets all back in: `SearchMeaning.OrIsUnion`,
  `SearchMeaning.AllReadmits`.
* STORE: a range with the greater number first, a lone `*`, and `a:*` beyond the last message select nothing, and
  `*:b` starts at 0: `Store.TwoNumbers`, `Store.LoneStar`, `Store.UpToStar`, `Store.FromStar`. An element with two
  colons repeats the range before it: `Store.TooManyColons`.
* SMTP: any line of four or more bytes that starts with `*` counts as a greeting, and recipients are forgotten by RSET
  only, not by a finished message (RFC 5321 section 4.1.4): `Smtp.HeloedIffGreeted`, `Smtp.StarIsEnough`,
  `Smtp.OnlyResetForgets`, `Smtp.SecondMessage`.

## Model

| member | source | states |
|---|---|---|
| Fields.NextCut | src/letter.cpp:779-790 | the first line feed that is followed by something other than SP or TAB, and none before it |
| Fields.CutAppend | src/letter.cpp:766-799 | cutting a text that arrives in two pieces gives the same fields and the same waiting text as cutting it at once |
| Fields.CutTiles | src/letter.cpp:774-813 | the fields of a text are non-empty and concatenate to the text |
| Fields.CutIsFolding | src/letter.cpp:774-813 | the fields are a folding of the text: no field could be cut further and no two neighbours could be joined |
| Fields.FoldingIsUnique | src/letter.cpp:774-813 | a text has only one such folding, so cutting computes the folding of RFC 5322 section 2.2.3 |
| Fields.TabsAndSpacesFold | src/letter.cpp:779-790 | a concrete text: lines that start with a tab or a space belong to the field before them |
| Text.CaseIgnored | src/letter.cpp:1650 | names are compared without the case of letters, and of nothing else |
| Summary.StoredGrows | src/letter.cpp:1534-1535 | 32-bit counters stay the true counts modulo 2^32 |
| Summary.FeedAppend | src/letter.cpp:1511-1536 | feeding fields in two runs equals feeding them in one |
| SummaryObjects.HeaderSummary.FieldParse | src/letter.cpp:1649-1724 | the header object follows the header step: last attribute of each kind, all attributes in order, range and lines |
| SummaryObjects.DataSummary.SetBoundary | src/letter.cpp:1760-1770 | both markers are those of the boundary |
| SummaryObjects.DataSummary.NextPart | src/letter.cpp:1791-1797 | a begin marker closes the open sub-part and opens one at the byte behind the marker |
| SummaryObjects.DataSummary.FieldParse | src/letter.cpp:1788-1810 | a field opens, closes or extends the open sub-part, through all nested objects, as the data step says |
| SummaryObjects.MimeSummary.NeedData | src/letter.cpp:1523-1530 | the data object starts where the header ended and has a boundary only in a multipart |
| SummaryObjects.MimeSummary.FieldParse | src/letter.cpp:1511-1536 | one field through the part and everything open inside it; only objects of this part change |
| LetterSummaries.LetterSummary.FieldParse | src/letter.cpp:815-842 | the letter is always the tree of all fields so far; the pending text is untouched |
| LetterSummaries.LetterSummary.AddToLetter | src/letter.cpp:819-832 | the letter's own header and data blocks equal those of its root part |
| LetterSummaries.LetterSummary.AddToTree | src/letter.cpp:834-841 | the MIME tree makes one part step, the letter's range and lines follow it |
| LetterSummaries.LetterSummary.CutOne | src/letter.cpp:774-799 | one pass hands on exactly the text up to the first cut, or leaves everything; the pending text shrinks |
| LetterSummaries.LetterSummary.ParsePending | src/letter.cpp:774-799 | the loop ends and hands on every field that can be cut |
| LetterSummaries.LetterSummary.Parse | src/letter.cpp:766-772 | after any chunk the fields handed on are those of the whole text so far |
| LetterSummaries.LetterSummary.Flush | src/letter.cpp:801-813 | after the flush the fields are those of the complete text |
| LetterSummaries.Summarise | src/letter.cpp:219-235 | for any split into non-empty chunks the tree is that of the whole text, and its ranges tile the text |
| Tiling.DataStepTiled | src/letter.cpp:1788-1810 | one field keeps the tiling of a data block: sub-parts ordered, inside, each behind a begin marker and before a marker, the open one ending where the data ends |
| Tiling.PartStepTiled | src/letter.cpp:1511-1536 | one field keeps the tiling of a part: header and data adjacent and covering it, line counts equal LF counts |
| Tiling.RunTiled | src/letter.cpp:815-842 | the tiling holds after every sequence of fields, at every depth |
| Batch.BatchScan | src/mime.cpp:163-190 | the ranges of sub-parts are non-empty and inside the body |
| Batch.SegmentText | src/fstring.h:83-91 | the text of a segment is the field it stands for |
| Batch.CutSegments | src/mime.cpp:246-262 | the segment table cuts the buffer into its folded fields, without a text after the last LF |
| Batch.ParseHeader | src/mime.cpp:114-147 | the header runs to the first CRLF field; its size, lines and last content type |
| Batch.Markers | src/mime.cpp:149-162 | the markers compared with, and whether any are looked for |
| Batch.AtMarker | src/mime.cpp:169-189 | a marker ends the part before it, if that has a segment, and a begin marker starts the next |
| Batch.ParseBody | src/mime.cpp:163-197 | the body's range, lines and sub-parts are those of the batch tree |
| Batch.ParsePart | src/mime.cpp:114-197 | the recursive constructor computes the batch tree of its segments and ends; a part without a CRLF field is BadPart |
| Batch.GlobalParse | src/mime.cpp:246-319 | the whole message is parsed into the batch tree of its text |
| Agreement.HeaderRun | src/letter.cpp:1511-1521 | fields up to the first blank one make the header range and keep the last content type |
| Agreement.DataRun | src/letter.cpp:1788-1810 | a data block holds one closed part for each range between markers, and the part being read |
| Agreement.StreamShape | src/letter.cpp:1511-1536 | the streaming tree of a finished part in terms of its fields alone |
| Agreement.SameScan | src/mime.cpp:163-190 | without a marker behind the end marker both parsers find the same ranges |
| Agreement.MoreRanges | src/mime.cpp:182-188 | the batch parser finds strictly more parts once a marker follows the end marker |
| Agreement.Agree | src/mime.cpp:114-197 | for every part: streaming tree = batch tree and that tree is completely read, if and only if the part is well-formed |
| Agreement.MessagesAgree | src/letter.cpp:1511-1536 | for every text: streaming tree = batch tree and that tree is completely read, if and only if the text ends in LF and its fields are well-formed |
| Agreement.LateMarker | src/mime.cpp:182-188 | where sub-parts have fields, a marker behind the end marker makes the trees differ |
| Agreement.BothCompleteButDifferent | src/mime.cpp:182-188 | a message that both parsers read completely, and differently |
| Agreement.BareLineFeed | src/letter.cpp:1513-1521 | a concrete message whose header ends in a bare LF: the streaming summary has these ranges, the batch parser never finds the end |
| Archive.CounterSurvives | src/letter.cpp:1477-1490 | every 32-bit counter survives being written as the signed int of the same 32 bits and read back, also beyond 2^31 |
| Archive.FeedTracked | src/letter.cpp:1649-1724 | in every run the attributes kept are the last of those seen |
| Archive.HeaderRoundTrip | src/letter.cpp:1556-1647 | a header is loaded as it was if and only if no attribute was repeated with another value |
| Archive.PartsRoundTrip | src/letter.cpp:1741-1786 | the same for the sub-parts of a data block, in order |
| Archive.PartRoundTrip | src/letter.cpp:1465-1509 | the same for a part at any depth: ranges, line counts, nesting, attributes; parts never closed are dropped and a header without data gets an empty data block |
| Archive.SaveLoad | src/letter.cpp:1465-1509 | after any run, saving and loading gives back the summary if and only if no header repeats an attribute with another value |
| Archive.RepeatedAttribute | src/letter.cpp:1574-1647 | two Content-ID fields with different values are not loaded as they were, whatever the values |
| Archive.FieldSavedAs | src/letter.cpp:1649-1724 | the element and the attributes that each of the five header fields leaves, by name; any other field leaves none |
| Archive.SavedMessage | src/letter.cpp:1465-1490 | the whole file for a concrete message, with all names and numbers |
| Archive.SavedHeader | src/letter.cpp:1465-1468 | the whole file for a message that is only a header |
| Archive.SignedCounter | src/letter.cpp:1748-1752 | a counter past 2^31 is written with a sign |
| Fetch.DynamicMmap.At | src/letter.cpp:38-62 | any access pattern: the byte of the file at that place, or the exception outside; the window mirrors the file |
| Fetch.DynamicMmap.Copy | src/letter.h:75-82 | copies exactly the bytes of the file |
| Fetch.DeliveredExactly | src/imap.cpp:2395-2408 | what is sent is the text, and has its length, if and only if it holds no NUL |
| Fetch.FirstChunk | src/imap.cpp:2395-2402 | a literal goes out in chunks of 1024 bytes |
| Fetch.SendLiteral | src/imap.cpp:2389-2409 | the announced length is that of the range; all chunks go out, each up to its first NUL, or exactly those before the first send that fails |
| Fetch.FindPart | src/imap.cpp:2376-2388 | the walk along part numbers, with its three outcomes |
| Fetch.LoadedRanges | src/letter.cpp:1465-1509 | saving and loading keep the ranges inside the text also where attributes are not kept |
| Fetch.LettersAreInside | src/imap.cpp:2389-2409 | every data range of the summary that is loaded for a text is empty or inside that text, so no access fails |
| Fetch.NullPointers | src/imap.cpp:2380-2394 | for every letter and path: m_data is null where it is followed if and only if the walk comes to a part with an empty range |
| Fetch.FetchPart | src/imap.cpp:2371-2413 | if no send fails, the announced length equals the bytes sent, and these are the part's range of the file, exactly when it holds no NUL; otherwise what went out is what stands before the failed send |
| FetchMeaning.WalkFinds | src/imap.cpp:2376-2388 | at any depth: the walk through the loaded summary of a part leads where the path leads among its fields |
| FetchMeaning.LetterFinds | src/imap.cpp:2376-2394 | for every letter and path: the walk comes to a missing part, to a null pointer or to a part exactly as the fields say, and the data range of the part is the text behind its header |
| FetchMeaning.FetchLetter | src/imap.cpp:2371-2413 | from the text of a letter to the literal: what is announced is the length of the text behind the header of the part at that path; that text is what is sent, each chunk up to its first NUL and until a send fails |
| FetchMeaning.MarkersInARow | src/imap.cpp:2390-2394 | a concrete message: the part between two begin markers in a row is met as a null pointer |
| LetterStore.MailLetter.OpenStream | src/letter.cpp:459-480 | the file is created on the first write, or the stream is broken; opening truncates it |
| LetterStore.MailLetter.SaveFragments | src/letter.cpp:484-497 | full fragments of 65535-1024 bytes go to the database in order until no more than one is left or a save fails; no byte is lost unless a save failed |
| LetterStore.MailLetter.StoreBytes | src/letter.cpp:482-500 | succeeds exactly when every storage operation does; then the file is extended by the bytes and the fragments by those before the first NUL |
| LetterStore.MailLetter.Append | src/letter.cpp:482-511 | fails exactly when a storage operation fails; otherwise the chunk is stored and the stream is left as it was |
| LetterStore.MailLetter.PassOn | src/letter.cpp:500-505 | the summary gets the bytes before the first NUL |
| LetterStore.MailLetter.Write | src/letter.cpp:411-519 | succeeds exactly when direction, quota and stream allow it and no storage operation fails; one refused for direction or quota changes nothing; one that succeeds adds its chunk to file, fragments and summary and leaves the stream open, so the next does not truncate the file |
| LetterStore.MailLetter.WriteNext | src/letter.cpp:411-519 | a Write behind Writes that succeeded: exactly the quota and the storage operations decide, and all chunks so far are stored |
| LetterStore.MailLetter.SaveRest | src/letter.cpp:552-571 | fails exactly when a save fails; otherwise the rest is saved in order, in fragments of at most 65535-4096 bytes |
| LetterStore.MailLetter.Close | src/letter.cpp:540-647 | an OK letter stays OK exactly when every save succeeds; its file holds the chunks, its fragments and its summary hold them as C strings; a letter that is not OK leaves neither; closing again changes nothing |
| LetterStore.QuotaIsTotal | src/letter.cpp:416-418 | the check of the size, which is kept modulo 2^32, at every chunk is a check of the total below 2^32 |
| LetterStore.StoreLetter | src/imap.cpp:1553-1576 | a whole letter, any chunks: it is OK exactly when everything arrived, the quota allows every chunk and every storage operation succeeds; then the file is the concatenation of the chunks, fragments fit and concatenate to what the summary read, and this is the file if and only if there is no NUL; otherwise nothing is left |
| FormData.Parse | src/http.h:55-115 | the loop reports the ranges of the scan function |
| FormData.CleanPart | src/http.h:76-113 | a clean part is read as its own header and data ranges |
| FormData.SpoiltPart | src/http.h:76-113 | a part with a marker or an early blank line inside is read with another range |
| FormData.RestAgrees | src/http.h:75-114 | behind the first marker the ranges are those of the encoded parts if and only if every part is clean |
| FormData.RoundTrip | src/http.h:55-115 | scanning an encoded form gives its parts back if and only if there is one and all are clean, whatever follows the text (RFC 7578 section 4.1) |
| FormData.RangesCut | src/http.h:55-115 | the reported ranges cut exactly the headers and the data out of the text |
| FormData.OneField | src/http.h:55-115 | a concrete form with one field and the ranges reported for it |
| Framing.LineSock.Take | src/base.h:254-277 | the front of the carry-over is handed out and the rest kept in order |
| Framing.LineSock.FromCarry | src/base.h:249-265 | a line in the carry-over, or as much of it as fits, is handed out |
| Framing.LineSock.CarryOver | src/base.h:305-321 | bytes received behind the line feed are kept for the next call |
| Framing.LineSock.Fill | src/base.h:281-328 | whatever sizes recv returns, the line so far grows along the stream; -1 only if recv failed or the stream ends before a whole piece |
| Framing.LineSock.LRecv | src/base.h:238-329 | the result is the unread stream up to the first delimiter or blen bytes, whichever is shorter, and is taken off the stream; -1, with the socket closed, only if recv failed or the stream holds no whole piece |
| Framing.LinesAppend | src/session.cpp:110-125 | lines of a text received in two pieces are those of the whole |
| Framing.LinesTile | src/session.cpp:110-125 | lines and the rest concatenate to the text |
| Framing.LinesEnd | src/session.cpp:110-125 | each line ends with the ending character and has no other; the rest has none |
| Framing.DrainLines | src/session.cpp:110-125 | every complete line is handed to Parse in order, up to and including the first that Parse refuses; the rest stays |
| Framing.Process | src/session.cpp:93-137 | the lines parsed are those of the stream's pieces, independent of segmentation: all of them unless recv fails, or up to the first that Parse refuses |
| Framing.DeliveredLines | src/session.cpp:93-137 | these are the lines of the stream if and only if no line holds a NUL |
| Framing.SessionInfo.Poll | src/session_group.cpp:199-222 | after any chunk the lines parsed are those of everything received, or the lines up to the first that Parse refuses |
| WorkerQueues.WaitMeansJob | src/service.cpp:147-157 | a worker that passed the wait finds the queue non-empty |
| WorkerQueues.AcceptorBalanced | src/service.cpp:525-540 | acceptor steps keep: semaphore + workers past the wait + posts owed = queue length |
| WorkerQueues.WorkerBalanced | src/service.cpp:147-157 | worker steps keep the same balance |
| WorkerQueues.AcceptorInOrder | src/service.cpp:525-540 | acceptor steps keep: popped, shared, in hand and local jobs are the accepted ones in order |
| WorkerQueues.WorkerInOrder | src/service.cpp:147-157 | worker steps keep the same order |
| WorkerQueues.StepInv | src/service.cpp:525-540 | every step keeps balance, order, mutex ownership, and a job for every worker behind the pop |
| WorkerQueues.Reachable | src/mta.cpp:854-858 | all of this holds in every interleaving of either program |
| WorkerQueues.ResetMakesNoDifference | src/mta.cpp:88-95 | the relay's pointer that is not reset never matters: every run ends as with the reset |
| WorkerQueues.NoJobTwice | src/service.cpp:152-155 | no job is popped twice |
| WorkerQueues.DrainGetsStuck | src/service.cpp:743-754 | an idle drain ends with the mutex taken |
| WorkerQueues.StuckForEver | src/service.cpp:743-754 | after an idle drain no worker pops a job again and every new session stays in the local queue |
| WorkerQueues.OnlyTheDrainSticks | src/service.cpp:743-754 | every run: the acceptor is idle with the mutex taken if and only if it was so or the run ends an idle drain |
| WorkerQueues.DrainIsReachable | src/service.cpp:743-754 | a run from the start that gets there, with two sessions accepted and one of them never popped |
| ConnectionPool.Search | src/stgengine.cpp:69-89 | the first slot that is free and connected or connectable, or none |
| ConnectionPool.StorageEngine.Wait | src/stgengine.cpp:62-96 | takes one permit and exactly the slot of the search |
| ConnectionPool.StorageEngine.Post | src/stgengine.cpp:98-105 | gives the permit back and frees the slot, unless it is slot 0; no slot loses its connection |
| ConnectionPool.StorageEngineInstance.constructor | src/stgengine.h:57-62 | the handle holds what Wait gave |
| ConnectionPool.StorageEngineInstance.Release | src/stgengine.h:66-71 | however often called, one permit and one slot are given back |
| ConnectionPool.StepCounted | src/stgengine.cpp:62-105 | every step conserves permits, also when connecting fails |
| ConnectionPool.StepExclusive | src/stgengine.cpp:62-105 | every step keeps each slot with at most one client, connected and in use |
| ConnectionPool.StepAccounted | src/stgengine.cpp:98-105 | every step keeps: a slot in use other than slot 0 is held |
| ConnectionPool.Reachable | src/stgengine.cpp:62-105 | in every interleaving: permits conserved, no slot with two clients, slots from 1 in use if and only if held, slot 0 in use if held |
| ConnectionPool.StepMutex | src/stgengine.cpp:68-103 | every step keeps the mutex with the client between lock and unlock, and only that client changes slots |
| ConnectionPool.OneInside | src/stgengine.cpp:68-103 | in every interleaving at most one client is between lock and unlock |
| ConnectionPool.SlotZeroStays | src/stgengine.cpp:98-105 | once used, slot 0 stays in use for ever |
| ConnectionPool.SlotZeroTaken | src/stgengine.cpp:69-105 | every run: slot 0 is in use if and only if it was or a search of the run found it |
| ConnectionPool.ConnectedStays | src/stgengine.cpp:69-105 | every run: a slot is connected if and only if it was or a search of the run found it, whoever has released it since |
| ConnectionPool.LeakStays | src/stgengine.cpp:98-105 | slot 0 in use without a holder stays so for ever |
| ConnectionPool.LeakIsReachable | src/stgengine.cpp:62-105 | one client that takes and releases the connection of a pool of one leaks it |
| ConnectionPool.PoolOfOne | src/stgengine.cpp:62-105 | after that no client of a pool of one ever holds a connection again |
| ConnectionPool.EmptyHanded | src/stgengine.cpp:62-96 | a client let through comes away without a connection if and only if each slot is held, is slot 0 leaked, or has no connection and gets none |
| ConnectionPool.EmptyHandedWhenUp | src/stgengine.cpp:62-96 | when every connection attempt succeeds: if and only if slot 0 has leaked and all others are held |
| FileBuffer.FBuffer.BufCat | src/fstring.cpp:151-222 | appends, growing or moving to the file past the threshold, once and for all |
| FileBuffer.FBuffer.Grow | src/fstring.cpp:155-191 | the memory block is filled or replaced without losing a byte; used length within the allocation |
| FileBuffer.FBuffer.Spill | src/fstring.cpp:192-219 | the block and the new data stand in the file in order |
| FileBuffer.FBuffer.CBuffer | src/fstring.cpp:224-241 | what is read is what was appended, in memory or mapped |
| FileBuffer.UseBuffer | src/fstring.cpp:151-241 | after any calls the content is the concatenation of what was appended, in a file if and only if over the threshold |
| Ber.HornerReads | src/asn_1.cpp:48-53 | the shift-and-add loop reads back any 32-bit number from its digits, leading zeros included |
| Ber.GetBerValLen | src/asn_1.cpp:11-25 | 64-bit sum returned as signed int agrees with the 32-bit loop modulo 2^32 |
| Ber.ReadLength | src/asn_1.cpp:46-56 | the shift-and-add loop of the constructor computes the length |
| Ber.LenRoundTrip | src/asn_1.cpp:46-56 | short and long length forms are read back |
| Ber.Construct | src/asn_1.cpp:33-87 | the recursive constructor computes the decoding function and ends |
| Ber.ForestRoundTrip | src/asn_1.cpp:33-87 | for any well-formed forest every tag, length and offset comes back, siblings in reverse, if and only if no composed value is empty (X.690 section 8.1.3) |
| Ber.EmptyReadsOn | src/asn_1.cpp:62-87 | concrete bytes: the number behind an empty sequence is decoded as its child and again as its sibling |
| Ber.ConstructedTags | src/asn_1.cpp:69-72 | which tags are constructed: bit 6, of any class |
| LdapFraming.Ldap.Append | src/simple_ldap.cpp:140-160 | bytes are appended across reallocation |
| LdapFraming.Ldap.ReadLength | src/simple_ldap.cpp:171-185 | the message length from the held bytes |
| LdapFraming.Ldap.Parse | src/simple_ldap.cpp:140-192 | refuses, waits, or releases all held bytes and starts afresh |
| LdapFraming.Beginnings | src/simple_ldap.cpp:162-190 | a beginning of a message is refused by its tag, incomplete, or complete only as the whole message |
| LdapFraming.Receive | src/simple_ldap.cpp:133-138 | a session fed byte by byte releases the messages of the feeding function |
| LdapFraming.StreamOfMessages | src/simple_ldap.cpp:140-192 | messages sent back to back are released one at a time, in order, with nothing left over, if and only if each is a SEQUENCE |
| Dns.GetHostname | src/dns.cpp:7-38 | appends the labels read and returns the bytes the name takes at its offset |
| Dns.BoundDoesNotMatter | src/dns.cpp:17-24 | the result does not depend on the bound put on pointers |
| Dns.EndsWithinSize | src/dns.cpp:17-24 | a name that ends at all follows at most as many pointers as the buffer has bytes |
| Dns.PointingBackEnds | src/dns.cpp:17-24 | with labels of 1 to 63 bytes and pointers that lead back, reading ends |
| Dns.LoopNeverEnds | src/dns.cpp:17-24 | a name on whose way some name is met twice has no end, however many names are between |
| Dns.SelfPointerNeverEnds | src/dns.cpp:17-24 | a name that points to its own start has no end, whatever its labels |
| Dns.EndsIff | src/dns.cpp:7-38 | reading ends if and only if the labels of every name met on the way lead to the root or to a pointer inside the buffer and no name is met twice |
| Dns.AfterLabels | src/dns.cpp:26-35 | labels that fit are read as they are, and the rest of the name as if it stood alone |
| Dns.Compressed | src/dns.cpp:17-24 | a compressed name is its own labels and those pointed to; the pointer takes two bytes |
| Dns.LabelsFit | src/dns.cpp:26-29 | labels read have 1 to 63 bytes |
| Dns.SpellIsDotted | src/dns.cpp:27-35 | a name read from scratch is its labels joined by dots if and only if no label holds a NUL |
| Dns.PackName | src/dns.cpp:60-71 | the encoder writes the name behind the header and nothing else |
| Dns.EncodeRead | src/dns.cpp:7-38 | reading inverts the encoder wherever the name stands, with the exact byte count, if and only if no label is over 63 bytes (RFC 1035 section 4.1.4) |
| Dns.TwoLabels | src/dns.cpp:26-35 | a concrete name: its bytes in the message, the labels read and how it is spelt |
| Search.ParseSearch | src/imap.cpp:4137-4209 | the character loop computes the items of the text |
| Search.DeepIsShorter | src/imap.cpp:4137-4209 | a deep item is shorter than the text it came from, so the recursion ends on every text |
| Search.ParseRender | src/imap.cpp:4137-4209 | a rendered query is cut into its keys, a group into one deep item holding the rendered group |
| Search.QuotedItem | src/imap.cpp:4137-4209 | between quotes spaces, line feeds and brackets belong to the item, and so do the quotes |
| Search.EscapedItem | src/imap.cpp:4137-4209 | a backslash takes the next character as it is |
| Search.WideItem | src/imap.cpp:4137-4209 | a byte above 0x7F takes the next one with it; at the very end it loses the item |
| Search.LineBreaks | src/imap.cpp:4137-4209 | a line feed ends an item as a space does, a carriage return is dropped |
| Search.Unclosed | src/imap.cpp:4137-4209 | an item whose quote or bracket is not closed, or with a bracket too many, is lost |
| Search.QuoteInBrackets | src/imap.cpp:4137-4209 | inside brackets a quote is a character like any other |
| Search.MarkLoop | src/imap.cpp:4298-4305 | one table loop sets the value for the messages with the attribute as said |
| Search.SubSearch | src/imap.cpp:4277-4330 | the evaluation loop with its recursion computes the evaluation function |
| Search.Search | src/imap.cpp:4235-4275 | the mids reported are those left at 1 |
| Search.PlainIsMeant | src/imap.cpp:5107-5108 | for queries in which every key is read with its own sign the code's reading is the conjunction of the keys |
| Search.NotPlainIsWrong | src/imap.cpp:5107-5108 | for the others no status satisfies both readings |
| Search.RightIffPlain | src/imap.cpp:5107-5108 | the two readings agree for every status if and only if the query is plain or no status satisfies either |
| Search.OneKey | src/imap.cpp:5107-5108 | for one key the code is right exactly for none or an odd number of NOTs before a status key, an even number before a group |
| SearchMeaning.MarkSets | src/imap.cpp:4298-4326 | a table loop stores its value for exactly the mids of messages with the attribute as said, whatever else the table holds |
| SearchMeaning.EvalKeys | src/imap.cpp:4277-4330 | evaluating the items of any query, ALL and OR included, does to the entry of each message what the verdict says, at any nesting |
| SearchMeaning.SearchVerdict | src/imap.cpp:4235-4275 | with distinct mids a message is reported if and only if the verdict on it is so, for every query of status keys, ALL, OR, NOT and groups |
| SearchMeaning.VerdictSlides | src/imap.cpp:5107-5108 | without ALL and OR the verdict is the sliding reading, and it goes on from there behind such keys |
| SearchMeaning.SearchSlides | src/imap.cpp:4235-4275 | with distinct mids a message is reported if and only if the sliding reading holds of it |
| SearchMeaning.SearchMeans | src/imap.cpp:4235-4275 | for plain queries a message is reported if and only if it satisfies every key (RFC 3501 section 6.4.4) |
| SearchMeaning.SearchErs | src/imap.cpp:4235-4275 | for a query that is not plain no message is both reported and asked for |
| SearchMeaning.NegatedGroup | src/imap.cpp:4288-4289 | NOT before a group gives the wrong answer for every message |
| SearchMeaning.UndraftIsIgnored | src/imap.cpp:6062-6064 | UNDRAFT excludes no message |
| SearchMeaning.RecentAndOldAreIgnored | src/imap.cpp:5109-5164 | RECENT and OLD exclude no message |
| SearchMeaning.StatusKeys | src/imap.cpp:5195-5226 | the nine status keys one by one, by the bits of the status |
| SearchMeaning.OrIsUnion | src/imap.cpp:5161-5162 | OR lets in what either of its keys or the keys before it let in; that is right exactly when the keys before it and its two keys come to the same (RFC 3501 section 6.4.4) |
| SearchMeaning.AllReadmits | src/imap.cpp:4291-4294 | ALL behind other keys lets every message back in |
| Store.VisitsAll | src/imap.cpp:3361-3384 | the two loops stop at exactly the messages some range selects |
| Store.ChangeFlags | src/imap.cpp:3388-3435 | the six read-modify-write steps unite with, or reduce by, all named attributes |
| Store.FlagBits | src/storage.h:32-37 | which bit each of the six flag names stands for |
| Store.ContainsAt | src/imap.cpp:3388-3435 | a flag counts wherever its name stands in the item |
| Store.StoreOne | src/imap.cpp:3385-3821 | the six forms of the command on one message, and the reply of the forms that are not silent |
| Store.FlagsReplace | src/imap.cpp:3381-3528 | FLAGS and FLAGS.SILENT set the status to the named bits; only FLAGS replies |
| Store.FlagsAdd | src/imap.cpp:3529-3675 | +FLAGS and +FLAGS.SILENT unite the status with the named bits; only +FLAGS replies |
| Store.FlagsRemove | src/imap.cpp:3676-3821 | -FLAGS and -FLAGS.SILENT take the named bits away; only -FLAGS replies |
| Store.NoForm | src/imap.cpp:3381-3821 | an item that starts with none of the six words does nothing |
| Store.Store | src/imap.cpp:3344-3825 | every message selected by a range, even by several, is updated as by one update, all others not at all; each reply carries the final status |
| Store.OrderDoesNotMatter | src/imap.cpp:3361-3384 | lists with the same ranges in any order have the same effect |
| Store.InTwoCommands | src/imap.cpp:3361-3384 | one list equals its two halves given one after the other |
| Store.TwoNumbers | src/imap.cpp:3366-3384 | `a:b` selects what RFC 3501 says if and only if a <= b |
| Store.OneNumber | src/imap.cpp:3366-3384 | a single number selects the message with that mid (UID STORE) or at that place from 1 (STORE) |
| Store.LoneStar | src/imap.cpp:3366-3384 | `*` alone selects nothing |
| Store.UpToStar | src/imap.cpp:3366-3384 | `a:*` selects what RFC 3501 says if and only if a is not beyond the last number |
| Store.FromStar | src/imap.cpp:3366-3384 | `*:b` selects what RFC 3501 says if and only if b is not below the last number and no message has another |
| Store.TooManyColons | src/imap.cpp:3361-3377 | an element with two colons or more selects what the element before it did |
| Smtp.CMailSmtp.Parse | src/smtp.cpp:207-282 | one line changes the session as the transition function says |
| Smtp.CMailSmtp.Authenticate | src/smtp.cpp:339-812 | AUTH begins a login dialogue or settles it at once |
| Smtp.CMailSmtp.Username | src/smtp.cpp:814-1020 | the first login line moves to the second, or ends the session |
| Smtp.CMailSmtp.Password | src/smtp.cpp:1022-1130 | the second login line logs in or ends the session, as the transition function says; `SmtpStatus.LoginDialogue` says which |
| Smtp.CMailSmtp.Mail | src/smtp.cpp:284-333 | MAIL is accepted from local senders exactly when logged in |
| Smtp.CMailSmtp.Rcpt | src/smtp.cpp:1132-1236 | which recipients are queued, groups as their members |
| Smtp.CMailSmtp.BeginData | src/smtp.cpp:1238-1405 | every queued recipient gets a new letter |
| Smtp.CMailSmtp.DataLine | src/smtp.cpp:1408-1430 | the line goes to the letters in order until one refuses it |
| Smtp.CMailSmtp.FinishData | src/smtp.cpp:1432-1552 | letters kept are delivered; without storage nothing happens |
| Smtp.CMailSmtp.Reset | src/smtp.cpp:1679-1693 | RSET forgets sender and recipients |
| Smtp.StepSafe | src/smtp.cpp:207-282 | every line keeps the safety of the session, recipients included |
| Smtp.EverySessionIsSafe | src/smtp.cpp:207-282 | in every session: RCPTED implies MAILED implies HELOED, at most one of the login steps and DATAING, all letters hold the same lines, every queued and delivered recipient is a verified local name or, being foreign, came with a login or relaying |
| Smtp.RcptQueues | src/smtp.cpp:1132-1236 | RCPT queues exactly the names it admits: the members of a local group, a verified local user, a foreign address under AUTHED or relaying |
| Smtp.EveryRecipientAccepted | src/smtp.cpp:1168-1235 | every name queued or delivered to came in by a RCPT line of that session that admitted it; a foreign one, without relaying, at a moment when AUTHED was set |
| Smtp.Transaction | src/smtp.cpp:1238-1552 | DATA, accepted lines and the dot deliver exactly those lines to the recipients whose letters are kept, in order |
| Smtp.RecipientsStay | src/smtp.cpp:1679-1693 | without RSET the recipients only grow, across finished messages and across `*` |
| Smtp.OnlyResetForgets | src/smtp.cpp:1679-1693 | every run: the recipients are forgotten at some point if and only if a RSET is executed |
| Smtp.SecondMessage | src/smtp.cpp:1238-1552 | a second message right behind the first is delivered to the recipients of the first |
| Smtp.HeloedIffGreeted | src/smtp.cpp:335-337 | MAIL and AUTH are let in exactly after EHLO, a certified HELO, or a line starting with `*` |
| Smtp.StarIsEnough | src/smtp.cpp:207-282 | a session whose first line is any four bytes or more that start with `*` goes on to MAIL |
| Smtp.Serve | src/smtp.cpp:207-282 | a session run line by line is the run of the transition function, and safe |
| SmtpStatus.Commands | src/smtp.cpp:207-282 | the nine commands by their words, and the status each of them needs |
| SmtpStatus.AuthMeans | src/smtp.cpp:339-812 | what AUTH does, by the name of the mechanism |
| SmtpStatus.StepBits | src/smtp.cpp:207-282 | every status bit after any line: set exactly by what sets it, kept unless what clears it; the session ends exactly at a line that closes it |
| SmtpStatus.AuthedIffPassed | src/smtp.cpp:1061-1130 | every session: AUTHED holds if and only if some line passed its own login check and no line starting with `*` came after it |
| SmtpStatus.MailedIffTaken | src/smtp.cpp:284-333 | every session: MAILED holds if and only if some MAIL came from a local domain after a login, or from elsewhere without one, and neither RSET nor `*` came after it |
| SmtpStatus.OpenUntilClosed | src/smtp.cpp:207-282 | every session: it is open if and only if no line has closed it |
| SmtpStatus.LoginDialogue | src/smtp.cpp:1022-1080 | AUTH LOGIN or DIGEST-MD5, user, password: logged in if and only if storage is had and the password is right, closed otherwise |
| SmtpStatus.DigestNeedsStorage | src/smtp.cpp:814-1020 | the user line of DIGEST-MD5 ends the session without storage |
| SmtpStatus.CramDialogue | src/smtp.cpp:1081-1110 | AUTH CRAM-MD5 and its answer: logged in if and only if storage is had and the answer is right, closed otherwise |
| SmtpStatus.RefusedLine | src/smtp.cpp:1408-1430 | a data line is added to the letters before the first that refuses it and to no other, and a refusal ends the session |
| SmtpStatus.DataNeedsStorage | src/smtp.cpp:1238-1450 | without storage DATA and the final dot change nothing; with it DATA starts a letter with its own header for each recipient |

## Left out

- Sockets, select, epoll, OpenSSL, EAGAIN retries: recv is some positive prefix of what arrives, or a failure.
- HDFS and ifstream state: the window cache uses the positional read of the HDFS build; a letter's file is a value.
- storage.cpp, util/general and the string helpers (strcut, strtrim, vSplitString, fnfy_strcut, filedContentType) are
  not part of this model: storage calls succeed or fail freely, and decoded values are parameters.
- XML as text and TinyXML: an element is a value with a name, attributes and children; destructors that save and
  loadXML are functions on values, so memory management and aliasing of elements are not captured.
- mimepart and asn1_tlv objects are values: their constructors are methods, their destructors are not modelled.
- The letter header's own attributes (From, To, Subject, dates), address and encoded-word decoding.
- LetterSummaries.LetterSummary.Parse: excludes an empty chunk while no text is waiting, where the source compares
  against length() - 1 of an empty string.
- Text that goes into a summary is taken without NULs: whoever passes it on has made a C string of it, as
  `LetterStore` shows.
- Batch.ParsePart: a part without a CRLF field, where the source goes on with members it never set, is BadPart.
- Fetch.FetchPart: the other FETCH items and the header of a part.
- Framing.Process: protocols without an ending character, and the keep-alive of a connection.
- WorkerQueues.Reachable: thread counts, timeouts and progress; a relay worker that finds no storage connection.
- ConnectionPool.Reachable: progress and the order in which waiting clients are let through.
- FileBuffer.FBuffer.BufCat: failed allocations and failed file writes.
- LetterStore.MailLetter.Write: MailLetter::Flush, and a letter that is reopened after Close; a NUL at the start of the
  first chunk, where the summary reads beyond an empty text, and chunks no NUL follows, as IMAP COPY hands them over.
- Ber.Construct: reads beyond the buffer, which the source does not check, are None.
- LdapFraming.Ldap.Parse: the decoder's own verdict on a complete message and the responses.
- Dns.GetHostname: reads beyond the buffer and labels of 64 bytes or more, which overflow a local buffer in the
  source, are excluded; record data, answer order and messages with several questions.
- Search.SubSearch: keys that look into letters, dates, sizes or keywords.
- Search.RightIffPlain: queries with two mistakes inside one another, such as NOT before a group that is itself
  misread, where one may undo the other.
- Store.Store: the text of the flag list in replies; cutting the range list at commas and colons.
- Smtp.CMailSmtp.Parse: replies, filters, STARTTLS, the mail index record, quota and host look-ups, spam handling;
  letters are the lines written to them (`LetterStore` has the letter object), and users, groups and local domains do
  not change during a session. Dot transparency is not implemented by
  the source, so lines are kept with their leading dots.
- POP3, calendars, webmail, configuration and process management are not modelled.
