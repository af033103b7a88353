# Verification of the leta search server's request, index and storage core

A Dafny model of the code that turns request bodies into stored, searchable documents, with proofs of
what that code promises. `dafny verify dfyconfig.toml` checks everything.

## What is modelled

**Reading documents** (`JsonLexer`, `JsonString`, `JsonEscapes`, `JsonNumber`,
`JsonNumberTokens`, `JsonNumberValues`, `Utf8`, `JsonGrammar`, `OnDemandReader`,
`DocumentRoutes`, `DocumentBatches`, `DocumentSlices`). `POST /indexes/{uid}/documents` reads a body with a
forward-only cursor that checks an atom, a number or an escape only when it is asked for, and skips what
nobody reads. `Reader` is that cursor: its methods are the calls the routes make, and their contracts
are the model of the library, from stepping into a container to reading a string, number, boolean or null. `ReadDocuments`,
`ReadDocument`, `ReadSearchableText` and the `Validate` trio are the routes' own loops over it. Beside
them stands the grammar of RFC 8259 as derivations of a body, and the main results connect the two: a
batch is accepted exactly when the grammar derives it within the limits, refusals are decided by the first
offending element, every kept slice is a JSON text of its own that reads back unchanged, and the slices
tile the body.

**Creating indexes** (`IndexRoutes`, `IndexRefusals`, `IndexBodies`). The field-by-field reading of a create request, shown
to depend only on what the fields mean and not on their order, spelling or spacing; when exactly each refusal is given; and the Index object
written in answer, shown to read back as the metadata it was written from.

**Printing** (`JsonString`, `JsonTimestamp`, `TimestampClock`, `Calendar`, `IngestBodies`, `RequestId`). The string escaper is
undone by the string reader. The timestamp printer is inverted and keeps order; the calendar conversion
under it, which the C++ standard library supplies, is written out and proved to be the calendar that starts
on 1970-01-01 and moves one day at a time.

**Indexing** (`WhitespaceTokenizer`, `ExactMatchIndex`). The tokenizer loop finds the maximal runs without
whitespace. The incremental postings, which compare only with the last id, always hold what a scan of every
document would find.

**Storing** (`IndexStore`, `InMemoryIndexRepository`, `Services`, `Workers`, `WorkerRuns`). `IndexStore` says
what each repository operation does when it runs alone; the repository class, with its map of index objects,
does exactly that, and so do the services and routes in front of it, whose responses read back as what
the repository then holds. `Workers` is the same protocol with any
number of workers interleaving: reading the clock (the reading is recorded), waiting for the one lock, emplacing, adding documents one
by one, releasing, responding. `WorkerRuns` proves what holds in every run.

**From bodies to lookups** (`EndToEnd`). After any run, a lookup in an index finds exactly the documents whose
JSON has the word in a top-level string value, and the source kept for each is the stretch of the body it was
sent in. `SendAndFind` composes the classes into one client's session: the source has no such loop.

Bytes are `char` values in a `string`. A body is cut into tokens, each with the whitespace before it
(`Piece`); cutting and weaving are inverse. What the reading code and the specification share, such as character
classes, escapes, number values, limits and the day length, is tied down on its own: by literal characters and
constants, by an automaton, by positional values, and by a clock that only ticks. Each loop that the source writes is a method with that loop, proved
against a function of its input; the lemmas are about those functions.

## Model

| member | source | states |
|---|---|---|
| DocumentBatches.AcceptsExactlyStrictBatches | src/adapters/http/document_routes.cpp:97-266 | a batch is accepted if and only if the body is an RFC 8259 text of an array of 1 to 10 000 objects, with every number below 2^1024 - 2^970 in positional value, every string Unicode text, and at most 128 levels under each object |
| DocumentBatches.CheckValueIsStrict | src/adapters/http/document_routes.cpp:97-159 | a value at any depth passes if and only if all its scalars and keys are strict and its own nesting, leaf scalars included, stays within 128 |
| DocumentBatches.OnlyNestingIsLeft | src/adapters/http/document_routes.cpp:97-159 | when every scalar reads, the verdict is valid or nested-too-deeply, according to the nesting alone |
| DocumentBatches.FirstOffender | src/adapters/http/document_routes.cpp:217-238 | on any JSON body, a refusal is the fault of the least offending element, all elements before it being valid; the size refusal is the fault of element 10 000; acceptance means no element has a fault, one document each |
| DocumentBatches.ScalarReadsIsStrict | src/adapters/http/document_routes.cpp:69-95 | reading a token by the type its first byte announces succeeds if and only if the grammar derives it and the server can hold it |
| DocumentSlices.RoundTrip | tests/fuzz/fuzz_json_ingest.cpp:17-25 | every kept document, sent again as a batch of one, comes back with the same bytes and the same searchable text |
| DocumentSlices.SourceIsItsElement | src/adapters/http/document_routes.cpp:192-215 | the kept bytes are, on their own, a JSON text whose value is the element they were cut from |
| DocumentSlices.SlicesTile | src/adapters/http/document_routes.cpp:217-266 | the body is a bracket, the kept sources in order with single commas between them, and a bracket, with only insignificant whitespace around; each source starts with `{` and ends with `}` |
| DocumentSlices.SlicesInOrder | src/adapters/http/document_routes.cpp:197-238 | each kept source is the body's own bytes between two offsets, and these stretches come one after another without touching |
| DocumentSlices.KeptText | src/adapters/http/document_routes.cpp:165-192 | a kept document's searchable text is that of the element it was read from |
| DocumentSlices.TextsInFieldOrder | src/adapters/http/document_routes.cpp:165-192 | the searchable texts are those of all the string fields, each once, in field order |
| DocumentRoutes.TrimmedSlice | src/adapters/http/document_routes.cpp:62-67 | the raw slice of a parsed object without its trailing whitespace is the object's own span, from `{` to its matching `}` |
| DocumentRoutes.ParseDocumentBatch | src/adapters/http/document_routes.cpp:242-266 | the lazy reading of a body that parses returns what its derivation comes to, and refuses every other body |
| DocumentRoutes.ReadDocuments | src/adapters/http/document_routes.cpp:217-238 | the loop returns the documents of all elements, or the first fault; the cursor ends after the array |
| DocumentRoutes.ReadDocument | src/adapters/http/document_routes.cpp:197-215 | two passes over one object agree with its derivation: the trimmed slice, the texts, or the first fault |
| DocumentRoutes.ReadSearchableText | src/adapters/http/document_routes.cpp:165-192 | the texts of the top-level strings in order, every other value validated once at depth 1, the cursor after the object |
| DocumentRoutes.ValidateValue | src/adapters/http/document_routes.cpp:141-159 | terminates on any input by the tokens left, is never entered past depth 129, and gives the value's first fault in document order or steps over it |
| DocumentRoutes.ValidateArray | src/adapters/http/document_routes.cpp:105-120 | the first fault among the elements one level deeper, or the cursor after the array |
| DocumentRoutes.ValidateObject | src/adapters/http/document_routes.cpp:122-139 | the first fault among keys and values one level deeper, or the cursor after the object |
| DocumentRoutes.ReadsAsScalar | src/adapters/http/document_routes.cpp:69-95 | succeeds exactly when the token is a whole scalar of the announced type, and then steps over it |
| OnDemandReader.SkippingSeesOnlyBrackets | src/adapters/http/document_routes.cpp:97-101 | skipping cannot tell apart bodies that differ only in scalars: why every value has to be read |
| OnDemandReader.SkipEndsAtClose | src/adapters/http/document_routes.cpp:194-206 | skipping an object that parses ends right after the brace that closes it |
| OnDemandReader.Reader.RawJson | src/adapters/http/document_routes.cpp:62-67 | the body from the object's start to the start of the next token, whitespace included |
| JsonGrammar.ParseTextIsTheGrammar | src/adapters/http/document_routes.cpp:97-101 | structural reading finds a well-formed value if and only if the grammar derives the body from it |
| JsonGrammar.ParsedTextIsDerived | src/adapters/http/document_routes.cpp:242-252 | what parses is derived, scalars and keys apart, and its tokens weave back to the body |
| JsonGrammar.DerivedTextIsParsed | src/adapters/http/document_routes.cpp:242-252 | every derivation is the one found: a body has one meaning |
| JsonGrammar.EmptyArrayText | src/adapters/http/document_routes.cpp:62-67 | brackets with bytes between them are the empty array if and only if those bytes are of the four whitespace characters |
| JsonLexer.LexThenWeave | src/adapters/http/document_routes.cpp:62-67 | cutting a body into tokens loses and moves nothing |
| JsonLexer.WeaveThenLex | src/adapters/http/document_routes.cpp:62-67 | tokens woven into a body are cut apart the same way |
| JsonLexer.TrimGap | src/adapters/http/document_routes.cpp:62-67 | trimming removes exactly the insignificant whitespace after a token |
| JsonNumber.ReadNumberIsTheGrammar | src/adapters/http/document_routes.cpp:69-76 | the number scan accepts exactly section 6 of RFC 8259, in one way |
| JsonNumberTokens.AcceptsExactlyNumbers | src/adapters/http/document_routes.cpp:69-76 | read one character at a time, the diagram of section 6 accepts exactly the tokens that the grammar derives and that the reader scans |
| JsonNumberValues.ReadsByValue | src/adapters/http/document_routes.cpp:69-76 | a number token reads if and only if the real number it says, digit by digit with point and exponent, is below 2^1024 - 2^970 in absolute value |
| JsonNumberValues.PlainInteger | src/adapters/http/document_routes.cpp:69-76 | digits alone read if and only if their value is below 2^1024 - 2^970 |
| JsonNumberValues.ExponentIsZeros | src/adapters/http/document_routes.cpp:69-76 | digits with exponent k read if and only if the digits followed by k zeros read |
| JsonNumberValues.ExponentMovesPoint | src/adapters/http/document_routes.cpp:69-76 | digits with exponent -k read if and only if they read with their point moved k places left |
| JsonNumberValues.HugeIsRefusedTinyIsRead | src/adapters/http/document_routes.cpp:69-76 | nonzero digits with an exponent of 342 or more are refused, 1e400 among them, and with a negative exponent that takes them below one they are read, 1e-400 among them |
| JsonString.UnescapeIsTheMeaning | src/adapters/http/document_routes.cpp:77-80 | reading a string token gives `t` if and only if section 7 of RFC 8259 lets the token stand for `t` |
| JsonString.ReadCharsIsTheGrammar | src/adapters/http/document_routes.cpp:77-80 | the unescaping scan accepts exactly the strings section 7 derives, in one way |
| JsonEscapes.BasicEscape | src/adapters/http/document_routes.cpp:184-190 | a \u escape of any scalar value up to U+FFFF, digits in either case, stands for the text whose payload bits add up to that value |
| JsonEscapes.PairEscape | src/adapters/http/document_routes.cpp:184-190 | a surrogate pair stands for the character above U+FFFF that it names |
| JsonEscapes.LoneSurrogate | src/adapters/http/document_routes.cpp:184-190 | a surrogate that stands alone is refused |
| JsonEscapes.ShortEscape | src/adapters/http/document_routes.cpp:184-190 | each of the eight short escapes stands for its literal character, and no other letter but u may follow a backslash |
| JsonEscapes.OnlyHexDigits | src/adapters/http/document_routes.cpp:184-190 | four characters that are not all hexadecimal digits make no escape |
| JsonEscapes.PlainByte | src/adapters/http/document_routes.cpp:184-190 | any other byte from 0x20 on stands for itself; a lower one, a lone quote or backslash is refused |
| JsonEscapes.UnescapeConcat | src/adapters/http/document_routes.cpp:184-190 | spellings side by side stand for their texts side by side |
| Utf8.EncodeThenDecode | src/adapters/http/document_routes.cpp:184-190 | the encoding of every scalar value is undone by adding up payload bits, and is as short as it can be |
| Utf8.ValidIsEncoded | src/adapters/http/document_routes.cpp:248-252 | what is taken for UTF-8 is the encodings of scalar values one after another, and nothing else |
| JsonString.UnescapeIsUtf8 | src/adapters/http/index_routes.cpp:169-171 | a string read out of a UTF-8 body is UTF-8 |
| JsonString.AppendJsonString | src/adapters/http/json_string.cpp:60-66 | appends the one quoted token of the value to what the buffer holds |
| JsonString.AppendEscaped | src/adapters/http/json_string.cpp:24-56 | appends the spelling of one byte |
| JsonString.EscapeThenRead | src/adapters/http/json_string.cpp:17-66 | for every byte string the token ends at its first unescaped quote, stands for that string under section 7, and unescapes to it |
| JsonString.QuotedIsClean | src/adapters/http/json_string.cpp:14-66 | no raw byte below 0x20 is written, and UTF-8 stays UTF-8 |
| Calendar.CivilIsTheCalendar | src/adapters/http/json_timestamp.cpp:29-31 | the conversion starts at 1970-01-01 and takes every next day to the next date, before 1970 too |
| Calendar.CivilThenDays | src/adapters/http/json_timestamp.cpp:29-31 | every day number gives a real date, and days-from-civil returns the number |
| Calendar.DaysThenCivil | src/adapters/http/json_timestamp.cpp:29-31 | every real date comes back from its day number |
| Calendar.DayOrderIsDateOrder | src/adapters/http/json_timestamp.cpp:29-31 | day order is date order |
| JsonTimestamp.AppendJsonTimestamp | src/adapters/http/json_timestamp.cpp:28-49 | for the years that src/adapters/http/json_timestamp.hpp:11-12 asks for, the field-by-field printing appends the quoted text of the instant |
| JsonTimestamp.AppendZeroPadded | src/adapters/http/json_timestamp.cpp:18-24 | appends the number in at least that many digits |
| JsonTimestamp.PaddedReads | src/adapters/http/json_timestamp.cpp:18-24 | a number that fits takes exactly the width, and its digits say the number |
| JsonTimestamp.TimestampReadsBack | src/adapters/http/json_timestamp.cpp:28-49 | for every instant in years 0000 to 9999: the RFC 3339 layout, 26 bytes with quotes, a real date and time of day, and the printed fields name the instant |
| JsonTimestamp.TextOrderIsTimeOrder | src/adapters/http/json_timestamp.cpp:18-49 | bytewise order of the texts is order in time, and equal texts are equal instants |
| TimestampClock.FieldsTick | src/adapters/http/json_timestamp.cpp:28-49 | the fields of every instant are the next tick, millisecond to year, of the fields of the instant before, on a clock written without a day length |
| TimestampClock.ClockStarts | src/adapters/http/json_timestamp.cpp:28-49 | instant 0 prints 1970-01-01T00:00:00.000Z |
| TimestampClock.RangeIs | src/adapters/http/json_timestamp.hpp:9-14 | the printable years are exactly the instants -62 167 219 200 000 to 253 402 300 799 999 |
| IndexRoutes.ParseCreateIndexRequest | src/adapters/http/index_routes.cpp:140-163 | the lazy reading of a body that parses returns what its derivation comes to, and refuses every other body |
| IndexRoutes.ReadFields | src/adapters/http/index_routes.cpp:111-125 | the loop leaves the fields of all members, or the first fault |
| IndexRoutes.ReadField | src/adapters/http/index_routes.cpp:97-109 | the key's meaning, not its spelling, selects the field |
| IndexRoutes.ReadUid | src/adapters/http/index_routes.cpp:64-75 | repetition is refused before the type is looked at |
| IndexRoutes.ReadPrimaryKey | src/adapters/http/index_routes.cpp:77-95 | a string, or null for none; anything else, a misspelt null included, is refused |
| IndexRoutes.ReadAllIsTheSum | src/adapters/http/index_routes.cpp:97-125 | reading ends with given fields if and only if the decoded members, as a multiset, add up to them |
| IndexRefusals.RefusedExactly | src/adapters/http/index_routes.cpp:64-163 | on a body that parses, each refusal is given exactly when it applies: the first member that is unreadable, repeated, of the wrong type or unknown decides, with its name; a missing uid only when every member reads and none is named uid; an invalid uid only when every member reads and the uid string is not one |
| Core.UidIsListed | src/core/index_uid.cpp:20-36 | a uid is 1 to 64 characters, each one of the letters, digits, `_` and `-` |
| IndexBodies.CommandIsAsked | src/adapters/http/index_routes.cpp:97-136 | members give a command if and only if they are one valid uid, at most one string-or-null primaryKey, and nothing else, in any order |
| IndexBodies.AcceptsExactlyWhatAsks | src/adapters/http/index_routes.cpp:64-163 | a request is accepted as a command if and only if the body is an RFC 8259 text of an object that asks for it |
| IndexBodies.MeaningDecides | src/adapters/http/index_routes.cpp:64-163 | bodies whose members decode alike give the same command, whatever the order, whitespace and escapes |
| IndexBodies.ReadPrimaryKeyIsUtf8 | src/adapters/http/index_routes.cpp:169-171 | a primary key that was read is UTF-8, as the printer requires |
| IndexBodies.IndexJson | src/adapters/http/index_routes.cpp:165-181 | for times in those years, the piecewise printing writes the tokens of the four fields, run together |
| IndexBodies.IndexReadsBack | src/adapters/http/index_routes.cpp:165-181 | an Index body is a JSON text of exactly the four fields, and they decode to the metadata |
| IndexBodies.ObjectTextParses | src/adapters/http/index_routes.cpp:165-181 | tokens of clean fields run together are a JSON text of that object and parse as it |
| IngestBodies.IngestResultJson | src/adapters/http/document_routes.cpp:268-285 | the piecewise printing writes the tokens of three or four fields, run together |
| IngestBodies.IngestReadsBack | src/adapters/http/document_routes.cpp:268-285 | an ingest body is a JSON text whose fields decode to the counts, the time, and the primary key when there is one |
| IngestBodies.DecimalReads | src/adapters/http/document_routes.cpp:271-284 | a printed count is a JSON number that says the count |
| RequestId.FormatRequestId | src/adapters/http/request_id.cpp:37-45 | the id is both words in hexadecimal, high first |
| RequestId.AppendHexWord | src/adapters/http/request_id.cpp:28-33 | the shift loop appends the sixteen digits of the word |
| RequestId.IdsAreAcceptableAndDistinct | src/adapters/http/request_id.cpp:20-45 | every generated id is acceptable, and ids of different words differ |
| RequestId.IdSaysBothWords | src/adapters/http/request_id.cpp:37-45 | the id reads as high * 2^64 + low in hexadecimal |
| RequestId.AcceptableIs | src/adapters/http/request_id.cpp:20-35 | acceptable are 1 to 128 letters, digits, `_`, `-` and `.` |
| WhitespaceTokenizer.SplitOnWhitespace | src/core/whitespace_tokenizer.cpp:17-27 | the index-jumping loop returns the words of the text |
| WhitespaceTokenizer.WordsAreTheMaximalRuns | src/core/whitespace_tokenizer.cpp:17-27 | the words are the maximal runs without whitespace: each word is one, in order, none missed |
| WhitespaceTokenizer.SplitRebuilds | src/core/whitespace_tokenizer.cpp:17-27 | words and the removed whitespace interleave to the text |
| WhitespaceTokenizer.SplitOfRejoin | src/core/whitespace_tokenizer.cpp:17-27 | words put together with whitespace of any kind split into those words |
| WhitespaceTokenizer.SplitDistributes | src/core/whitespace_tokenizer.cpp:17-27 | the words of two texts with a space between them are the words of both |
| WhitespaceTokenizer.EachOfSixSeparates | src/core/whitespace_tokenizer.cpp:13-24 | each of the six ASCII whitespace characters separates the words before it from those after it |
| WhitespaceTokenizer.NothingElseSeparates | src/core/whitespace_tokenizer.cpp:13-24 | text without any of the six is one word, or none when empty |
| WhitespaceTokenizer.SplitIsStable | src/core/whitespace_tokenizer.cpp:17-27 | splitting the rejoined words changes nothing |
| ExactMatchIndexes.ExactMatchIndex.Add | src/core/exact_match_index.cpp:18-29 | the document gets the next id, and every term then finds what a scan of all documents finds |
| ExactMatchIndexes.ExactMatchIndex.DocumentCount | src/core/exact_match_index.cpp:31-33 | the number of documents ever added |
| ExactMatchIndexes.ExactMatchIndex.DocumentsContaining | src/core/exact_match_index.cpp:35-41 | strictly increasing ids of exactly the documents that contain the term |
| ExactMatchIndexes.ExactMatchIndex.Source | src/core/exact_match_index.cpp:43-45 | the bytes added under that id |
| ExactMatchIndexes.ScanIsExact | src/core/exact_match_index.hpp:21-40 | a scan lists each containing document once, in insertion order |
| ExactMatchIndexes.ScanGrows | src/core/exact_match_index.cpp:18-29 | later documents only lengthen what a term finds |
| ExactMatchIndexes.RecordWord | src/core/exact_match_index.cpp:47-53 | looking only at the back of the list is a full check for duplicates |
| ExactMatchIndexes.DocumentDone | src/core/exact_match_index.cpp:22-27 | recording every word of a document turns the scan without it into the scan with it |
| InMemoryIndexRepositories.InMemoryIndexRepository.Emplace | src/adapters/storage/in_memory_index_repository.cpp:31-34 | inserts only where the uid is free, and changes no other index |
| InMemoryIndexRepositories.InMemoryIndexRepository.Add | src/adapters/storage/in_memory_index_repository.cpp:27-40 | a create has the effect and answer of the operation run alone |
| InMemoryIndexRepositories.InMemoryIndexRepository.AddDocuments | src/adapters/storage/in_memory_index_repository.cpp:42-57 | an ingest has the effect and answer of the operation run alone |
| InMemoryIndexRepositories.InMemoryIndexRepository.AddOne | src/adapters/storage/in_memory_index_repository.cpp:53-55 | one document goes to the end of one index, all other indexes unchanged |
| IndexStore.AppendAllIs | src/adapters/storage/in_memory_index_repository.cpp:53-55 | a batch lands whole and in order at the end of its index |
| IndexStore.AfterKeeps | src/adapters/storage/in_memory_index_repository.cpp:27-57 | no operation removes an index, touches another index or changes stored metadata |
| Services.IndexService.CreateIndex | src/application/index_service.cpp:17-29 | one clock reading for both times; the response is the one for the repository's answer |
| Services.IngestService.AddDocuments | src/application/ingest_service.cpp:20-34 | the outcome carries the batch size and the stored primary key |
| Services.IngestService.AddDocumentsResponse | src/adapters/http/document_routes.cpp:287-310 | succeeds if and only if uid and body are valid, with status 200 and a body that reads back as the number of documents sent, the number indexed, the stored primary key and the time; a refused request changes nothing; stored keys stay printable |
| Services.CreateIndexResponse | src/adapters/http/index_routes.cpp:183-194 | succeeds if and only if the body is valid and the uid free, with status 201 and a body that reads back as the metadata now stored; any other request changes nothing; stored keys stay printable |
| Workers.SectionIsAtomic | src/adapters/storage/in_memory_index_repository.cpp:42-57 | a finished critical section did what its operation does alone, with the same answer |
| Workers.StepKeepsStore | src/adapters/storage/in_memory_index_repository.cpp:27-57 | every step of every worker keeps: one lock holder, store equal to the operations so far plus the holder's part, answers legal |
| Workers.StepKeepsTrace | src/application/ingest_service.cpp:20-34 | every step keeps: each request invoked, stamped with the clock, committed and answered at most once, in that order, and what is committed carries the time that was read |
| Workers.EveryRunKeepsInv | src/adapters/storage/in_memory_index_repository.cpp:27-57 | both hold in every reachable state |
| WorkerRuns.RunsLinearize | src/adapters/storage/in_memory_index_repository.cpp:27-57 | every run equals its operations one at a time in lock order: each response is that order's, and the free store is that order's |
| WorkerRuns.ResponsesTellTheStore | src/application/ingest_service.cpp:20-34 | a created index was absent and is now there, empty, with the metadata answered; a refused create changed nothing; an ingest put its documents at the end, and answers their number and the stored primary key |
| WorkerRuns.RealTimeOrder | src/adapters/storage/in_memory_index_repository.cpp:27-57 | a request answered before another was made comes first in lock order |
| WorkerRuns.EachServesOneRequest | src/application/index_service.cpp:17-29 | each operation serves one request and carries, for both times, the value of its one clock reading, which lies after the request and before the commit; no request is read for or served twice |
| WorkerRuns.NothingLostOrInterleaved | src/adapters/storage/in_memory_index_repository.cpp:45-56 | in every reachable state an index holds the finished batches, whole, in lock order, then what the lock holder has added; its length is the sum of the reported counts plus that |
| WorkerRuns.ReplayedUids | src/adapters/storage/in_memory_index_repository.cpp:27-57 | an index exists if and only if some operation named it |
| WorkerRuns.ReplayedLogs | src/application/ingest_service.cpp:20-34 | a log is the batches ingested into it and as long as the ingests were told |
| WorkerRuns.FirstMetadataStays | src/adapters/storage/in_memory_index_repository.cpp:29-52 | stored metadata is the first operation's for good |
| WorkerRuns.OnlyTheFirstCreates | src/adapters/storage/in_memory_index_repository.cpp:27-40 | a create succeeds if and only if it is the first operation on its uid |
| WorkerRuns.FirstWriterWins | src/application/index_service.cpp:17-29 | in every reachable state, lock held or free: stored metadata is that of the first operation on the uid, or of the lock holder when no finished operation named the uid; its times are equal and are a clock reading made between that request and its commit; every later create of the uid is refused |
| WorkerRuns.NeverStuck | src/adapters/storage/in_memory_index_repository.cpp:27-57 | in every reachable state the lock holder can step, and so can everyone who is not waiting for a taken lock |
| EndToEnd.ContainsIsMentions | src/adapters/http/document_routes.cpp:165-192 | a document contains a term if and only if a top-level string value of its object stands for a text with that word |
| EndToEnd.SourcesAreSlices | src/adapters/http/document_routes.cpp:62-67 | over any bodies, what is kept for each document is a stretch of one accepted body, byte for byte, later documents from later stretches |
| EndToEnd.LookupFindsExactly | src/core/exact_match_index.cpp:18-45 | after any bodies, refused ones adding nothing, a lookup gives exactly the positions of the documents whose JSON has the word in a top-level string value; what is kept for each is that JSON, byte for byte as sent |
| EndToEnd.LookupAfterAnyRun | src/adapters/storage/in_memory_index_repository.cpp:42-57 | after any interleaving of workers the log is the documents of the bodies in lock order, each the bytes sent, and lookups find exactly the documents that have the word |
| EndToEnd.SendAndFind | src/adapters/http/document_routes.cpp:287-310 | the classes themselves: after sending any bodies to a new server, the postings return exactly the documents that have the word, and the stored source of each is the stretch of the body it was sent in |
| EndToEnd.Send | src/adapters/http/document_routes.cpp:287-310 | requests one after another leave the documents of the accepted bodies, in order |

## Left out

- simdjson: it is not part of the repository. `Reader` states the behaviour the comments rely on: UTF-8, closed strings and raw control characters are checked up front, atoms, numbers and escapes on reading. Its padding, its own depth limit, its handling of a byte-order mark and its eager look at the end of an array are not modelled.
- Strings with a lone surrogate are refused and numbers are accepted below 2^1024 - 2^970 in magnitude; both are the library's choices, stated in `Denote` and `InDoubleRange`.
- DocumentRoutes.ParseDocumentBatch: for a body that does not parse only the refusal is stated, not which message it carries, because that depends on where the library first notices.
- IndexRoutes.ParseCreateIndexRequest: the same.
- ExactMatchIndexes.ExactMatchIndex.Add: fewer than 2^32 documents is a precondition, as the source's comment has it; the workers' logs carry no such bound.
- JsonTimestamp.AppendJsonTimestamp: years outside 0000 to 9999 are excluded, as the precondition of src/adapters/http/json_timestamp.hpp:11-12 has it; RFC 3339 cannot write them.
- IndexBodies.IndexJson: the same precondition, for both times.
- Services.CreateIndexResponse: the same precondition for the clock; the status and body of a refusal are not part of the contract.
- Services.IngestService.AddDocumentsResponse: the status and body of a refusal are not part of the contract.
- The mutex is a lock holder in `Workers`, and a store there is a value; the classes are the sequential code inside the lock. Fairness, the memory model and allocation failure are not modelled.
- The real clock, the elapsed time and the random engine are parameters. The id taken from a request header is `IsAcceptable`, and nothing more is said of it.
- Message wording, the status codes of refusals, `error_response`, routing, the HTTP transport, health and system routes: tables and plumbing.
- Whatever only the design documents describe: the write-ahead log, snapshots, segments, typo tolerance and ranking have no code.
