# Verified model of the goodware importer, the relay, the code index and the egress proxy

This project models four components of the repository and proves properties of them in Dafny.
The components share nothing but the notion of text, so they can be read one by one.
`dafny verify dfyconfig.toml` verifies everything.

**The goodware index builder** (`scripts/import_goodware.py`). `JsonScanner` is the scanner behind
`raw_decode`; `JsonGrammar` and `JsonTree` are the strings and the values of RFC 8259 as syntax,
with the three constants Python adds, and they are exactly what it scans; `JsonStream` is a pure
reader over a text that arrives in pieces, next to a parser of the whole text, `JsonCutWitness` a
text the cuts of which can be told apart, and `JsonLoads` compares the reader with `json.loads` and
with the grammar; `StreamingReader` is the class with its buffer, its compaction and its UTF-8
decoder. The theorems are about all ways to cut the stream: which observations can depend on the
cuts (only values with a fraction or an exponent), and that a usable source never does.
`UpsertTable` is a table of counts filled by batches of upserts; `GoodwareIndex` goes from bytes to
the v2 table, its lookup and its deep verification.
`GoodwareStage`, `JsonBytes` and `CanonicalJson` are the v1 path: `json.loads` of bytes in any of
its encodings, the table, the sorted JSON lines and their verifier, with the exact set of files it
accepts. `Normalization` and `Utf8` serve both.

**The relay** (`docs/mission07/tools/relay.py`, `relayget.py`). `RelayProtocol` is a state machine
whose actions are inbox writes, completions, stop requests and the turns of the relay, in any
interleaving. `RelaySafety` and `RelayRuns` hold its invariant and what follows for every run
with distinct live ids; `RelayAdmission` says which requests are admitted, and `RelayInbox`
relates the files of the inbox to what is received, executed and answered; `RelayPartition` says of
every run, whatever its ids, exactly when no request is lost, and `RelayCollision` has runs with
twins; `RelayClient` is the client that reads the relay's files, `RelayTornRead` the client whose
three reads are not one snapshot, and `RelayTornWitness` a run with readings of it that go back;
`Relay` is the class, and its loop body is proved to extend a run of the protocol.

**The code index** (`scripts/ctx/ctx.py`). `Chunker` splits one span under the line and character
limits, `ChunkCoverage` goes from the nodes, headings or declarations of a file to its chunks,
`Selector` is the greedy choice of results, `Ranking` the lexical scores and their order, and
`RankingLaws` what raises and lowers them.

**The egress proxy** (`sidecars/browser_egress_proxy/server.py`). `ProxyFraming` forwards a
chunked body over a connection whose reads return any non-empty amount, `ChunkedEncoding` is the
coding of section 7.1 of RFC 9112 that it has to recognise, `ProxyHeaders` parses, filters and
reprints a request head, and `ProxyBudget` accounts for bytes and connections.

Some properties one might expect are false of the code. Each has an input on which it fails and
the exact condition under which it holds:

- Reading in pieces is not always reading at once. `raw_decode` on a buffer that ends after `1.` or
  `1e` returns 1, and the guard of `_parse_value` does not notice. `JsonCutWitness.TwoCuts` has a
  text and two ways to cut it; `JsonStream.ReadIndependentOfPieces` says for which texts the cuts
  are unobservable. Usable sources hold counts only, so builds are not affected.
- The reader accepts more than `json.loads`, because `isspace` is wider than JSON white space
  (`JsonLoads.AcceptsMoreSpace`): they agree if and only if every gap between tokens holds JSON
  white space only, whatever the strings hold (`JsonLoads.ParsesLoads`).
- The verifiers can refuse what was just built: `GoodwareIndex.BuiltIsDeepVerified` and
  `GoodwareStage.BuiltStageVerifies` say exactly when, and a `BuiltButRefused` in each module has
  an input.
- A received request can be lost: `RelayPartition.NothingLostExactly` says that none is if and
  only if no start and no refusal meets its own id in `active`, and
  `RelayCollision.SameIdLosesARequest` is a run that loses one.
- A client whose reads are not one snapshot can see a request move back
  (`RelayTornWitness.RereadGoesBack`, `RelayTornWitness.TornReadGoesBack`). Between two readings
  that look at the outbox again at their end it does if and only if the first was shown from the
  inflight file, in phase running, and the second finds the id still listed as queued
  (`RelayTornRead.RereadGoesBackExactly`); so a client that takes that phase for no more than the
  file's being there never sees a request move back. Without the second look there is one more
  case, "not seen" of an id that was seen and that the outbox holds by now
  (`RelayTornRead.GoesBackExactly`).
- The proxy accepts bodies that are not chunked bodies of RFC 9112:
  `ChunkedEncoding.AcceptsMoreSizes` has sizes, `ChunkedEncoding.AcceptsMoreBodies` extensions and
  a trailer, `ChunkedEncoding.AcceptedIsMessage` the condition.
- The proxy forwards fields that `Connection` names (`ProxyHeaders.NamedFieldSurvives`): exactly the
  fields of its own four names are dropped (`ProxyHeaders.DroppedExactly`).
- Selection has a simple description only while no item has ended the walk by the floor
  (`Selector.SelectedWhen`, `Selector.UnsortedStopsEarly`); the rankings of `rank_chunks` descend,
  and for these it always holds (`Ranking.RankedDescends`, `Selector.SelectedExactly`).

Where documentation and code disagree the model follows the code: the comment on the lexical
scores says that a chunk whose matched terms all lie in its symbol reaches 1.0, while the code
also needs the symbol's tokens to be the query (`Ranking.ScoreBounds`); the assertion of
`chunk_text` is out of reach for headers of up to 5245 characters, one more than the arithmetic of
`split_span_to_limits` suggests; and chunk-size lines count as trailer bytes, which bounds the
number of chunks of a forwarded body (`ChunkedEncoding.ManyChunksRefused`).

## Model

| member | source | states |
|---|---|---|
| Utf8.DecodeConcat | scripts/import_goodware.py:521-534 | feeding the incremental decoder in two calls gives what one call on all the bytes gives, errors included |
| Utf8.DecodeEncode | scripts/import_goodware.py:245-251 | decoding inverts encoding for every text without surrogates |
| Utf8.DecodeExactly | scripts/import_goodware.py:521-534 | bytes decode to a text if and only if they are its encoding, so overlong forms, surrogates and anything else are refused |
| Utf8.EncodeOrder | scripts/import_goodware.py:429-435 | SQLite's byte order on UTF-8 is Python's code-point order, both ways |
| JsonScanner.ValuePrefix | scripts/import_goodware.py:560-581 | a value scanned inside a buffer is the value scanned in every longer buffer, except that an integer may become a fraction or exponent; with a following character that cannot extend it, never |
| JsonScanner.ValueShrink | scripts/import_goodware.py:560-581 | conversely, a value of the longer buffer whose end is visible is found in the shorter one |
| JsonScanner.ValueShift | scripts/import_goodware.py:536-539 | dropping a consumed prefix of the buffer changes no value and shifts its end |
| JsonGrammar.PiecesScan | scripts/import_goodware.py:560-581 | every string of RFC 8259, of plain characters, short escapes and code units in digits of either case, is scanned to the text its pieces stand for; two escapes of a surrogate pair are one character |
| JsonGrammar.StringSound | scripts/import_goodware.py:560-581 | and what the scanner takes for a string is such a string |
| JsonGrammar.AsciiReadsBack | scripts/import_goodware.py:560-581 | every text without surrogates is read back from what `json.dumps` prints with `ensure_ascii`, `\uXXXX` in either case and a surrogate pair above U+FFFF |
| JsonGrammar.WrittenReadsBack | scripts/import_goodware.py:560-581 | and however each of its characters is written, plain or with any of its escapes |
| JsonTree.NumberScans | scripts/import_goodware.py:560-581 | a number, its sign, digits, fraction and exponent, is scanned to its value: the integer, or the text of the fraction |
| JsonTree.TreeScans | scripts/import_goodware.py:560-581 | every JSON text of the grammar, with any white space and any escapes, is scanned to the value the grammar gives it |
| JsonTree.TreeSound | scripts/import_goodware.py:560-581 | and what the scanner takes is such a text, with that value |
| JsonTree.LoadsExactly | scripts/import_goodware.py:107-128 | `json.loads` takes a text for an object if and only if the grammar has it as one, with the members the grammar gives it |
| JsonStream.ReadRefinesParse | scripts/import_goodware.py:506-629 | for all pieces, a reading that ends normally is the parse of the concatenated text, without fractional or exponent values the two are always equal, and pairs yielded before a failure are those of the parse but possibly the last |
| JsonStream.ReadIndependentOfPieces | scripts/import_goodware.py:560-581 | the pieces of a text are unobservable if and only if its parse yields no value with a fraction or an exponent |
| JsonStream.ReadDiverges | scripts/import_goodware.py:560-581 | for every text whose parse yields a fraction or an exponent, reading it one character at a time yields other pairs than the parse |
| JsonCutWitness.TwoCuts | scripts/import_goodware.py:560-581 | of `{"a":1.5}`, delivered whole the reader yields 1.5 and ends normally, one character at a time it yields 1 and fails |
| JsonLoads.ParsesLoads | scripts/import_goodware.py:541-629 | a text the reader accepts is one `json.loads` accepts as an object if and only if every gap of its parse holds JSON white space only, and then with the same pairs; `json.loads` accepts no other text |
| JsonLoads.AcceptsMoreSpace | scripts/import_goodware.py:541-551 | a text with a no-break space in a gap, which the reader takes and `json.loads` refuses |
| JsonLoads.SpaceInStringIsPlain | scripts/import_goodware.py:541-551 | a no-break space inside a key is no such gap: both accept, with the same pairs |
| JsonLoads.GrammarParses | scripts/import_goodware.py:596-629 | the parse takes every object of the grammar, whatever its escapes and white space, with the members the grammar gives it |
| JsonLoads.DumpReads | scripts/import_goodware.py:596-629 | what `json.dumps` prints for a dict of integers, escapes in either case, is read back however it is cut into pieces |
| Text.SpacesExactly | scripts/import_goodware.py:541-551 | `isspace` takes the 25 code points with the Unicode property White_Space and the four separators of ASCII |
| JsonStream.UsableIndependentOfPieces | scripts/import_goodware.py:271-280 | whether a source holds counts only, and its pairs, never depend on the pieces |
| StreamingReader.StreamText | scripts/import_goodware.py:521-534 | the stream has no fault exactly when the bytes fit the maximum and decode, however the reads cut them, and then its text is their decoding |
| StreamingReader.StreamingJsonObject.constructor | scripts/import_goodware.py:511-519 | a new reader is at the start of its stream |
| StreamingReader.StreamingJsonObject.Fill | scripts/import_goodware.py:521-534 | one read appends the next decoded piece or notes the end; it fails exactly when the stream does |
| StreamingReader.StreamingJsonObject.Compact | scripts/import_goodware.py:536-539 | dropping the consumed part moves nothing in the text |
| StreamingReader.StreamingJsonObject.SkipWhitespace | scripts/import_goodware.py:541-551 | skips to the next visible character over any number of reads |
| StreamingReader.StreamingJsonObject.Peek | scripts/import_goodware.py:553-558 | reads until a character is visible or the stream ends |
| StreamingReader.StreamingJsonObject.ParseValue | scripts/import_goodware.py:560-581 | reads on until the value is complete under the read-ahead rule, then moves behind it |
| StreamingReader.StreamingJsonObject.Consume | scripts/import_goodware.py:583-589 | passes exactly the expected character or fails |
| StreamingReader.StreamingJsonObject.Finish | scripts/import_goodware.py:591-594 | succeeds exactly when only white space is left |
| StreamingReader.StreamingJsonObject.Items | scripts/import_goodware.py:596-629 | the pairs and the outcome of the loop are those of the pure reader |
| StreamingReader.ReadSourceExact | scripts/import_goodware.py:506-651 | a source ends normally only as the parse of its decoded bytes within the limit, and is usable if and only if that parse is, whatever the reads |
| StreamingReader.SameBytesSameItems | scripts/import_goodware.py:632-651 | two deliveries of the same bytes are usable together, with the same pairs |
| Normalization.UnescapeLoop | scripts/import_goodware.py:132-144 | the loop computes the left-to-right unescaping |
| Normalization.UnescapeEscape | scripts/import_goodware.py:132-144 | it inverts yarGen's two escapes on every string |
| Normalization.UnescapeNotIdempotent | scripts/import_goodware.py:1253-1259 | applied twice it changes text, which is why the verifier does not apply it |
| Normalization.UnescapeExactly | scripts/import_goodware.py:132-144 | a key is unescaped to a text if and only if, cut from the left into characters and the two escapes, its segments stand for that text |
| Normalization.NormalizeExactly | scripts/import_goodware.py:189-229 | an entry is given a value if and only if it means it: a string by its segments, less the marker, in lower case; an export in lower case; an import hash of 32 digits with white space around it; an opcode fragment of 8 to 16 bytes with white space anywhere |
| Normalization.WrittenKeys | scripts/import_goodware.py:189-204 | what yarGen writes for a text and for its UTF-16 form both mean the text in lower case |
| Normalization.RemoveSpaceConcat | scripts/import_goodware.py:211-229 | white space goes and every other character stays, in order |
| Normalization.MessageInjective | scripts/import_goodware.py:232-251 | different features are hashed from different bytes |
| UpsertTable.UpsertsAreSums | scripts/import_goodware.py:318-349 | the upserts hold the plain sum of every key, and REAL exactly for sums outside the SQLite integers |
| UpsertTable.InsertRows | scripts/import_goodware.py:318-349 | executemany is the upserts in order |
| GoodwareIndex.AggregateSource | scripts/import_goodware.py:677-712 | batching the rows of a source by any size leaves the table, sum and statistics of one insertion per usable pair |
| GoodwareIndex.Aggregate | scripts/import_goodware.py:660-717 | the same for all sources; it fails exactly when some pair is bad |
| GoodwareIndex.LookupIsSum | scripts/import_goodware.py:1064-1083 | a lookup is the sum of the counts of the entries of that kind that mean the value, the empty keys apart, and absent if and only if there are none |
| GoodwareIndex.BuiltExactly | scripts/import_goodware.py:660-717 | an index is built if and only if every source was read to its end and each of its pairs has a count of SQLite and a key that means some value; of the empty keys those of strings and import hashes pass, those of exports do not |
| GoodwareIndex.BothFormsFound | scripts/import_goodware.py:189-204 | a source with a text and its UTF-16 form is found under the text in lower case, with both counts |
| UpsertTable.UpsertsConserve | scripts/import_goodware.py:335-349 | while the total fits no key overflows and the table holds exactly the total |
| GoodwareIndex.BuiltIsDeepVerified | scripts/import_goodware.py:960-988 | the deep checks accept a built index if and only if its total is a SQLite integer |
| GoodwareIndex.BuiltButRefused | scripts/import_goodware.py:960-988 | an input: two usable counts whose sum is 2^63 are built and refused |
| GoodwareIndex.BuiltConserves | scripts/import_goodware.py:677-717 | the per-source sums are the occurrence sum plus the sentinels, and the table has one row for each distinct key |
| GoodwareIndex.BuildIndependentOfReads | scripts/import_goodware.py:506-717 | from bytes to table, how the files were read is unobservable |
| JsonGrammar.DumpedScans | scripts/import_goodware.py:79-86 | a printed string is scanned back to itself, at every position and whatever follows |
| JsonGrammar.DumpIsShortest | scripts/import_goodware.py:79-86 | and among all ways to write its text none is shorter |
| CanonicalJson.DigitsValue | scripts/import_goodware.py:79-86 | the printed digits of a count have its value and no leading zero |
| JsonBytes.DecodeEncodeAs | scripts/import_goodware.py:123-124 | the decoders of `json.loads`, UTF-8, UTF-16 and UTF-32 in either order with lone surrogates passed, invert their encoders |
| JsonBytes.DecodesExactly | scripts/import_goodware.py:123-124 | bytes decode to a text if and only if they are its encoding, where lone surrogates go through and in UTF-16 no two of them make a pair |
| JsonBytes.DetectsCodec | scripts/import_goodware.py:123-124 | the encoding of an object's text is found out from its first bytes, with a byte order mark and without one |
| JsonBytes.EncodingsLoadAlike | scripts/import_goodware.py:123-124 | an object loads the same from each of these encodings, with a mark and without one |
| GoodwareStage.NormalizedOnce | scripts/import_goodware.py:147-186 | what the builder normalises passes the verifier's test, under the laws of NFC |
| GoodwareStage.NormalizeV1Exactly | scripts/import_goodware.py:147-186 | an entry of a v1 source is given a value if and only if it means it: NFC of what its segments stand for, the marker kept, NFC of an export, and digits as in the v2 index |
| GoodwareStage.WrittenKeysV1 | scripts/import_goodware.py:147-165 | what yarGen writes for a text is stored as its NFC, and its UTF-16 form as that behind the marker |
| GoodwareStage.NormalizedExactly | scripts/import_goodware.py:1253-1262 | which values the verifier takes as normalised |
| GoodwareStage.CollapseKeepsLast | scripts/import_goodware.py:107-128 | `json.loads` keeps one entry for each key, with its last value |
| GoodwareStage.AggregateSource | scripts/import_goodware.py:376-396 | one source in batches of any size; fails exactly when some pair is bad |
| GoodwareStage.Aggregate | scripts/import_goodware.py:352-406 | from the bytes of the files: fails exactly when one exceeds the limit, does not load or holds a bad pair, and else leaves the table of one insertion per usable pair, for every batch size |
| GoodwareStage.AcceptedExactly | scripts/import_goodware.py:107-128 | a file is accepted if and only if it is within the limit, loads as an object, and the last value of each of its keys makes a usable pair |
| GoodwareStage.RecordsAreSums | scripts/import_goodware.py:352-449 | the records of a built stage are the keys some entry means, each with the sum of those entries as long as that is a SQLite integer |
| GoodwareStage.SameOrder | scripts/import_goodware.py:429-435 | SQLite's ORDER BY on kind and value is the order of Python's tuples |
| GoodwareStage.AscendingAll | scripts/import_goodware.py:1271-1279 | ascending records ascend altogether, so no two are of the same feature |
| GoodwareStage.CursorExists | scripts/import_goodware.py:429-435 | every table has such an ordered listing of its rows |
| GoodwareStage.WriteRecords | scripts/import_goodware.py:422-449 | the file is the canonical lines in order, with its digest, number and sum |
| GoodwareStage.RecordIsTree | scripts/import_goodware.py:79-86 | a printed record is a JSON object without white space, its three keys in ascending order and its strings in the shortest way |
| GoodwareStage.StageConserves | scripts/import_goodware.py:422-486 | the manifest's sum is the plain sum of the counts of all entries, those under empty keys apart, and its number that of the features, as long as no feature's sum leaves the SQLite integers |
| GoodwareStage.LineLoads | scripts/import_goodware.py:436-441 | `json.loads` of a printed line gives exactly the three members of the record |
| GoodwareStage.PrintedLineVerifies | scripts/import_goodware.py:1236-1273 | a printed record is accepted if and only if it is normalised and its count is in range |
| GoodwareStage.VerifyStage | scripts/import_goodware.py:1217-1288 | a file and manifest are accepted if and only if the file is the print of normalised, positive, strictly sorted, hence distinct records that the manifest's digest, number and sum match |
| GoodwareStage.BuiltStageVerifies | scripts/import_goodware.py:452-486 | what was built from the bytes of files is accepted if and only if no feature's sum leaves the SQLite integers |
| GoodwareStage.BuiltButRefused | scripts/import_goodware.py:1217-1288 | an input: two files that count the same export, with the sum 2^63, are built and refused |
| RelayProtocol.AdmittedId | docs/mission07/tools/relay.py:76-112 | an admitted id has 1 to 80 characters that are letters, digits, `_` or `-`, so the files named after it stay in their directories, and it is its own sanitised form |
| RelayAdmission.IdExactly | docs/mission07/tools/relay.py:76-83 | the id is what is left of the given one, its first 80 characters, and if nothing is left that of the file name |
| RelayAdmission.KeepConcat | docs/mission07/tools/relay.py:76-83 | what is left are the letters, digits, `_` and `-`, in order |
| RelayAdmission.AdmittedExactly | docs/mission07/tools/relay.py:84-112 | a request is admitted if and only if it has an id, its path starts at the root, is of the known characters and without two dots in a row, and it is a GET, or a POST to a tool or to the reconciliation of an invocation |
| RelaySafety.AcceptInv | docs/mission07/tools/relay.py:274-296 | queueing a fresh request keeps the invariant |
| RelaySafety.RejectInv | docs/mission07/tools/relay.py:274-296 | so does finishing a refused one at once |
| RelaySafety.StartInv | docs/mission07/tools/relay.py:308-319 | so does a start when its lane has room |
| RelaySafety.FinishInv | docs/mission07/tools/relay.py:365-411 | so does a finish of an active request |
| RelaySafety.DispatchInv | docs/mission07/tools/relay.py:321-333 | so does a dispatch, which starts at least one request when some wait and none runs, and leaves no lane with both a waiting request and a free slot |
| RelayRuns.RunInv | docs/mission07/tools/relay.py:434-456 | the invariant holds after every interleaving with distinct live ids |
| RelayRuns.Safety | docs/mission07/tools/relay.py:274-333 | at most one hand-over for each received request and none for a refused one, one POST and at most get_workers GETs at a time, pending, active and finished partition what was received, and `seen_files` is exactly the files of pending and active |
| RelayRuns.StopDrains | docs/mission07/tools/relay.py:434-456 | after a stop nothing is received, and twice the pending plus the active requests goes down by one with every start and every finish |
| RelayRuns.Progress | docs/mission07/tools/relay.py:321-333 | whenever requests wait and none runs, the next dispatch starts one |
| RelayRuns.LanesFilled | docs/mission07/tools/relay.py:321-333 | after every dispatch of a run a lane with a waiting request is full: get_workers GETs run, or one POST |
| RelayRuns.ExitOnlyWhenDone | docs/mission07/tools/relay.py:434-456 | the loop ends only with every received request finished |
| RelayRuns.QueuePositionExact | docs/mission07/tools/relay.py:239-244 | a request at position p is the p-th of the following starts of its lane, and until then its position is p less the starts so far |
| RelayInbox.ReceivedAsDelivered | docs/mission07/tools/relay.py:274-296 | in every run, whatever its ids, a file is received at most as often as it was put into the inbox, and one time less while it waits there |
| RelayInbox.ExecutedAsDelivered | docs/mission07/tools/relay.py:274-333 | so with distinct live ids a file is handed to the executor at most as often as it was put there |
| RelayInbox.FinishedLeaves | docs/mission07/tools/relay.py:400-405 | a file received as often as it was put there, with no live request, is not in the inbox any more |
| RelayInbox.UnreceivedStays | docs/mission07/tools/relay.py:274-296 | a file that was never received is still there |
| RelayInbox.PassReceives | docs/mission07/tools/relay.py:274-296 | one undisturbed pass over the inbox receives exactly the readable files not seen yet, each once |
| RelayInbox.PassCollects | docs/mission07/tools/relay.py:413-432 | the next undisturbed pass over the active requests finishes every one whose result is there |
| RelayInbox.VerdictMeans | docs/mission07/tools/relay.py:413-432 | in every run with distinct live ids an outbox file says `completed` if and only if the request it answers was refused, its future gave a dict without either flag, or, for a GET, no dict |
| RelayPartition.StartKeepsActive | docs/mission07/tools/relay.py:308-319 | a start keeps every active request if and only if its id is not active |
| RelayPartition.RejectKeepsActive | docs/mission07/tools/relay.py:293-296 | a refusal keeps every active request if and only if its id is not active |
| RelayPartition.NothingLostExactly | docs/mission07/tools/relay.py:274-432 | for every run, whatever its ids: pending, active and finished partition the received requests at every moment if and only if no start and no refusal meets its own id in `active` |
| RelayPartition.DistinctIdsAreClear | docs/mission07/tools/relay.py:274-432 | distinct live ids are enough for that |
| RelayClient.RequestStatus | docs/mission07/tools/relayget.py:67-105 | the reads of outbox, status file and inflight file with their early exits give the view of one snapshot |
| RelayClient.ClientMonotone | docs/mission07/tools/relayget.py:67-105 | for any two readings of one snapshot each, over every run with distinct live ids, the later one is never behind the earlier one and never ahead of the files, also when an id is used again |
| RelayClient.ClientExact | docs/mission07/tools/relayget.py:67-105 | between turns the client reads the verdict of a finished request of the id, that of its future or `completed` for a refused one; before that its exact queue position, or that it runs; and not seen before it is received |
| RelayClient.ExitHasAnswered | docs/mission07/tools/relay.py:397-411 | after the loop has ended every received request has its outbox file |
| RelayTornRead.RereadGoesBackExactly | docs/mission07/tools/relayget.py:67-105 | of two readings one after the other, each of outbox, status and inflight file at later and later moments and of the outbox once more, the second ranks below the first if and only if the first was shown from the inflight file in phase running and the second finds the id still queued; with an inflight file counted as no more than received, never; also when an id is used again |
| RelayTornRead.GoesBackExactly | docs/mission07/tools/relayget.py:67-105 | without the second look: while the outbox does not hold the id the same condition; and when at most one request of the id is received, if and only if that condition holds or the second reading says not seen of an id that was seen and the outbox holds by now |
| RelayTornRead.RereadIsNotBehind | docs/mission07/tools/relayget.py:67-105 | if the outbox, read again last, does not hold the id, a reading is not behind its own first moment |
| RelayTornRead.BehindExactly | docs/mission07/tools/relayget.py:67-105 | when at most one request of the id is received, a reading ranks below its own first moment if and only if it says not seen of an id that was seen then and the outbox holds by now |
| RelayTornRead.NotSeenIsStale | docs/mission07/tools/relayget.py:67-105 | a reading that says not seen is out of date if and only if the outbox, read again, holds the id |
| RelayTornRead.AheadExactly | docs/mission07/tools/relayget.py:67-105 | a reading is ahead of its last moment if and only if it shows the inflight file of a start whose status is not written yet |
| RelayTornRead.FinishIsTorn | docs/mission07/tools/relayget.py:67-105 | in every run, around every finish of an id received once, a reading of the outbox before it and the other files after it reports a running request as not seen |
| RelayTornWitness.WholeLog | docs/mission07/tools/relay.py:274-411 | every state of the three files in a run that receives, starts and finishes one request |
| RelayTornWitness.RereadGoesBack | docs/mission07/tools/relayget.py:67-105 | at moments of that run: a reading with its second look says running, the next one queued at position 1 |
| RelayTornWitness.TornReadGoesBack | docs/mission07/tools/relayget.py:67-105 | at moments of that run: a reading says running, the next one not seen, and its second look at the outbox finds the answer |
| RelayCollision.SameIdLosesARequest | docs/mission07/tools/relay.py:308-319 | a run with two files of one id: both executed, the first never answered, and the relay exits |
| RelayCollision.TwinsMayWait | docs/mission07/tools/relay.py:274-296 | but not needed: a run in which two requests of one id wait together and none is lost |
| Relay.Relay.ReceiveFile | docs/mission07/tools/relay.py:274-296 | the method takes the protocol's step for one file of the listing |
| Relay.Relay.Start | docs/mission07/tools/relay.py:308-319 | the method takes the protocol's start, with its writes in order |
| Relay.Relay.Dispatch | docs/mission07/tools/relay.py:321-333 | the two loops over the snapshot of pending are the protocol's dispatch |
| Relay.Relay.Finish | docs/mission07/tools/relay.py:365-411 | the method takes the protocol's finish, with its writes in order and the file out of the inbox |
| Relay.Relay.CollectCompleted | docs/mission07/tools/relay.py:413-432 | the loop over the active requests finishes exactly those whose results are there |
| Relay.Relay.QueuePosition | docs/mission07/tools/relay.py:239-244 | one more than the requests of the lane before it |
| Relay.Relay.CurrentStatus | docs/mission07/tools/relay.py:246-265 | the status lists the queue with positions and the active requests |
| Relay.Relay.Pass | docs/mission07/tools/relay.py:434-456 | one pass of the loop, and when it is the last |
| Relay.PassIsTurns | docs/mission07/tools/relay.py:434-456 | a pass is a number of turns of the protocol |
| Relay.PassExtendsRun | docs/mission07/tools/relay.py:434-456 | a pass that starts where a run of the protocol stands at the top of the loop ends where a longer run stands, so the theorems on runs hold for the class |
| Chunker.SplitSpanToLimits | scripts/ctx/ctx.py:430-461 | the two nested loops end and compute the greedy split |
| Chunker.ChunkEndLargest | scripts/ctx/ctx.py:435-453 | a chunk ends at the largest line the limits allow, and with more than one line its text fits |
| Chunker.SplitFollows | scripts/ctx/ctx.py:430-461 | starts strictly increase, ends never decrease, no gap, at most nine lines of overlap, from the first line to the last |
| Chunker.EveryLineCovered | scripts/ctx/ctx.py:430-461 | every line of the span lies in one to ten chunks |
| Chunker.TenIsReached | scripts/ctx/ctx.py:430-461 | and ten is attained |
| Chunker.AssertionUnreachable | scripts/ctx/ctx.py:632-639 | the assertion can never fail if and only if the header has at most 5245 characters |
| Chunker.TextReadsBack | scripts/ctx/ctx.py:632-639 | read line by line, the text of a chunk is one line that names file, symbol and kind, and then exactly the lines of its range |
| ChunkCoverage.ContiguousUncovered | scripts/ctx/ctx.py:464-475 | the result is exactly the maximal gaps, in order |
| ChunkCoverage.SplitPython | scripts/ctx/ctx.py:481-558 | first exactly the spans that stand for a node: a function, a class of at most 110 lines, and of a larger one its header and each of its methods under both names; then in order one span for each maximal run of lines no node holds, named after the first class that holds its first line; together every line |
| ChunkCoverage.NodeSpansExactly | scripts/ctx/ctx.py:481-545 | a span is one of the nodes' if and only if it stands for one, and there are as many as the nodes have functions, small classes, headers, methods and bodies |
| ChunkCoverage.OwnerExactly | scripts/ctx/ctx.py:546-558 | a line is owned by a class if and only if some class holds it, and then by the first that does |
| ChunkCoverage.ReorderedCovers | scripts/ctx/ctx.py:560-560 | the final sort of `split_python` keeps what its spans hold |
| ChunkCoverage.SplitByMarks | scripts/ctx/ctx.py:563-617 | Markdown and TypeScript files are partitioned, one span for each heading or declaration, starting at it under its name, and one before the first |
| ChunkCoverage.PartitionCovers | scripts/ctx/ctx.py:563-617 | a partition holds every line |
| ChunkCoverage.BuildFile | scripts/ctx/ctx.py:659-684 | the loop clamps, splits and filters: the kept chunks in order, or a failure exactly when `chunk_text` raises for some chunk |
| ChunkCoverage.KeptExactly | scripts/ctx/ctx.py:666-684 | a chunk is kept if and only if its text has at least 32 characters between the white space at its ends |
| ChunkCoverage.ShortHeadersBuild | scripts/ctx/ctx.py:632-684 | with headers of at most 5245 characters the build never fails |
| ChunkCoverage.Deduplicate | scripts/ctx/ctx.py:686-694 | the loop over the dict keeps the first place of every chunk |
| ChunkCoverage.DeduplicatedGrows | scripts/ctx/ctx.py:686-694 | a later chunk never takes or moves the place of an earlier one |
| ChunkCoverage.NoLineLost | scripts/ctx/ctx.py:659-695 | before the filter every line is held; after it, the deduplication and any final order, a line is lost if and only if every chunk that holds it has fewer than 32 characters of text |
| Selector.OverlapIsShare | scripts/ctx/ctx.py:1101-1110 | the ratio lies in [0, 1] and is 1 if and only if one chunk lies inside the other |
| Selector.OverlapExactly | scripts/ctx/ctx.py:1101-1110 | in one file the ratio is the number of lines both chunks hold, over that of the shorter |
| Selector.PrefixesWiden | scripts/ctx/ctx.py:1122-1128 | one matching prefix is enough, and a further prefix excludes nothing |
| Selector.SelectResults | scripts/ctx/ctx.py:1113-1144 | the loop with its counters, skips and two stops computes the greedy walk |
| Selector.SelectedExactly | scripts/ctx/ctx.py:1113-1144 | for descending scores an item is picked if and only if no rule speaks against it given the earlier picks |
| Selector.ResultsExactly | scripts/ctx/ctx.py:1113-1144 | the same without the walk: an item is picked if and only if, given the picks before it, its path is wanted, its file is not full, no pick overlaps it by 0.72 or more, k is not reached and it is not below the floor |
| Selector.SelectedWhen | scripts/ctx/ctx.py:1113-1144 | for every ranking an item is picked if and only if no rule speaks against it given the earlier picks and no earlier item has ended the walk by the floor |
| Selector.ResultsWellFormed | scripts/ctx/ctx.py:1113-1144 | for every ranking: in order, at most k (or one, when k is not positive), at most per_file in a file, no two overlapping by 0.72 or more |
| Selector.UnsortedStopsEarly | scripts/ctx/ctx.py:1113-1144 | that last condition matters for a concrete ranking, one that `rank_chunks` never delivers |
| Ranking.LexicalScores | scripts/ctx/ctx.py:1008-1068 | the loop assigns every chunk its field-weighted score |
| Ranking.IdfPositive | scripts/ctx/ctx.py:1016-1020 | no query term weighs nothing, however common |
| RankingLaws.RarerWeighsMore | scripts/ctx/ctx.py:1016-1020 | of two terms the one in fewer lexicons weighs strictly more, and terms in equally many the same |
| RankingLaws.RarerScoresHigher | scripts/ctx/ctx.py:1008-1068 | of two chunks of equal length that match one term each in the body, the one with the rarer term scores higher, and only then |
| RankingLaws.LongerNeverRaises | scripts/ctx/ctx.py:1040-1068 | a longer lexicon with the same matches in the body never scores higher |
| RankingLaws.StrongerFieldsScoreMore | scripts/ctx/ctx.py:1040-1068 | at full focus, matches moved from body to path or to symbol never lower a score, and raise it if any moved |
| RankingLaws.ScoreExactly | scripts/ctx/ctx.py:1008-1068 | a query all in one field scores the root of its share of the symbol, 2/3 in the path, and in the body 1/3 or less by the length of the lexicon in averages |
| Ranking.ScoreBounds | scripts/ctx/ctx.py:1008-1068 | a score lies in [0, 1], is 0 if and only if nothing matches, at most 2/3 without a symbol match, 1/3 with body matches only, and 1 if and only if the symbol's tokens are the query and all are in the lexicon |
| Ranking.FusedBounds | scripts/ctx/ctx.py:1159-1187 | the fused lexical-only score lies between 0 and the prior of the chunk's role |
| RankingLaws.MetaExactly | scripts/ctx/ctx.py:1071-1098 | the bonus of a source chunk whose symbol and path hold all or none of the query, cap included |
| Ranking.OrderIsUnique | scripts/ctx/ctx.py:1184-1189 | the ranking is a stable descending permutation of the chunks, and the only one |
| Ranking.RankedDescends | scripts/ctx/ctx.py:1184-1203 | so the ranked list meets the condition of exact selection |
| ProxyFraming.Connection.CopyChunkedBody | sidecars/browser_egress_proxy/server.py:444-478 | for all read sizes, success forwards exactly the delimited message, charges its length and leaves the rest; it succeeds whenever there is one and the budgets allow it; on failure only consumed bytes were written |
| ProxyFraming.Connection.CopyExact | sidecars/browser_egress_proxy/server.py:480-496 | exactly the asked bytes are forwarded and charged, over any sequence of short reads |
| ProxyFraming.Connection.CopyTrailers | sidecars/browser_egress_proxy/server.py:465-477 | trailers are forwarded up to the empty line, within what the size lines left |
| ChunkedEncoding.ChunkSizeOfLine | sidecars/browser_egress_proxy/server.py:459-464 | every size line, hexadecimal digits in either case with any leading zeros and an extension, is read as the number whose digits they are, n % 16 at the end, n / 16 % 16 before it and so on |
| ChunkedEncoding.EveryNumber | sidecars/browser_egress_proxy/server.py:459-464 | every length has such digits, with any number of leading zeros |
| ChunkedEncoding.NumeralReads | sidecars/browser_egress_proxy/server.py:459-464 | plain digits are read as n if and only if they are a numeral of n |
| ChunkedEncoding.PythonHexExactly | sidecars/browser_egress_proxy/server.py:459-464 | exactly what `int` takes for a number and which number: a sign, a prefix, and a numeral with single underscores inside; the RFC allows the numeral only |
| ChunkedEncoding.ChunkSizeExactly | sidecars/browser_egress_proxy/server.py:459-464 | exactly what the proxy reads as the size v: such a number between white space, up to the end or a semicolon |
| ChunkedEncoding.AcceptsMoreSizes | sidecars/browser_egress_proxy/server.py:459-464 | three sizes the RFC forbids |
| ChunkedEncoding.AcceptsMoreBodies | sidecars/browser_egress_proxy/server.py:444-478 | three bodies that are delimited and are no chunked bodies of the RFC: a blank after a size, a control byte as an extension, a trailer that is no field line |
| ChunkedEncoding.MessageIsFramed | sidecars/browser_egress_proxy/server.py:444-478 | every encoded message, with extensions and trailer lines as wide as the proxy takes them and whatever follows it, is delimited exactly, if and only if its size lines, trailers and final line together fit in max_header_bytes |
| ChunkedEncoding.AcceptedIsMessage | sidecars/browser_egress_proxy/server.py:444-478 | what the proxy delimits is a chunked body of section 7.1 of RFC 9112 if and only if every size line is plain digits and a chunk extension of its grammar, the two unread bytes after every chunk are CRLF, and every trailer is a field line |
| ChunkedEncoding.RfcIsFramed | sidecars/browser_egress_proxy/server.py:444-478 | every chunked body of the RFC, whatever follows it, is delimited exactly when it fits, and of the wider bodies that are delimited too the strict ones are those of the RFC |
| ChunkedEncoding.ManyChunksRefused | sidecars/browser_egress_proxy/server.py:450-458 | so a body of too many chunks is refused however small they are |
| ChunkedEncoding.ForwardMessage | sidecars/browser_egress_proxy/server.py:444-496 | forwarding an encoded message followed by anything writes exactly it and leaves exactly the rest, if and only if it fits, given budget |
| ProxyHeaders.ParseHeaders | sidecars/browser_egress_proxy/server.py:739-756 | the loop accepts the head exactly when every line is a field, with the fields in order |
| ProxyHeaders.ParseHeadExactly | sidecars/browser_egress_proxy/server.py:739-768 | a head parses if and only if its first line is a request line and each of the others a field, in their order |
| ProxyHeaders.RequestLineExactly | sidecars/browser_egress_proxy/server.py:759-768 | a request line is read as method, target and version if and only if it is letters, a target without space and HTTP/1.0 or 1.1 with one space between them, and the method the letters in capitals |
| ProxyHeaders.CasesExactly | sidecars/browser_egress_proxy/server.py:759-768 | what the capitals and the small letters of the letters are |
| ProxyHeaders.TokenExactly | sidecars/browser_egress_proxy/server.py:746-755 | a character of a field name is visible ASCII and no delimiter of section 5.6.2 of RFC 9110 |
| ProxyHeaders.FieldLineExact | sidecars/browser_egress_proxy/server.py:746-755 | a line is a field if and only if it is a token, a colon directly after it and a value between white space of `str.strip`, which is more than the RFC's |
| ProxyHeaders.HeadEndsOnce | sidecars/browser_egress_proxy/server.py:255-264 | a printed head ends at its own blank line, whatever follows |
| ProxyHeaders.OutgoingFields | sidecars/browser_egress_proxy/server.py:355-380 | exactly one `Connection: close` and one Host, no other field of the four names the proxy drops, every other field with its values in order |
| ProxyHeaders.ValuesExactly | sidecars/browser_egress_proxy/server.py:355-380 | the values of a name are those of the fields of that name in any case, in order |
| ProxyHeaders.ForwardedConcat | sidecars/browser_egress_proxy/server.py:368-378 | a field stays or goes by its own name alone, and the others keep their order |
| ProxyHeaders.DroppedExactly | sidecars/browser_egress_proxy/server.py:368-378 | a field that is there is dropped if and only if its name is on that list, whatever `Connection` names |
| ProxyHeaders.NamedFieldSurvives | sidecars/browser_egress_proxy/server.py:368-378 | a head whose `Connection` names a field that goes through |
| ProxyHeaders.OutgoingTwice | sidecars/browser_egress_proxy/server.py:368-380 | a second such proxy changes nothing more |
| ProxyHeaders.HeadRoundTrip | sidecars/browser_egress_proxy/server.py:355-388 | reading back a forwarded head gives the same method and version, the target's path and exactly the outgoing fields, and stops at its end |
| ProxyHeaders.ForwardedExactly | sidecars/browser_egress_proxy/server.py:355-388 | which heads are forwarded, both ways: parse, host, Expect, Upgrade, and a method whose capitals latin-1 can encode |
| ProxyHeaders.RefusedWith | sidecars/browser_egress_proxy/server.py:345-388 | with which status the others are refused: 417 for `Expect` when the host is right, else 400 |
| ProxyBudget.GlobalByteBudget.Add | sidecars/browser_egress_proxy/server.py:125-128 | refuses exactly what would exceed the limit and then changes nothing |
| ProxyBudget.ByteBudget.Add | sidecars/browser_egress_proxy/server.py:142-147 | both budgets are charged, or neither |
| ProxyBudget.BudgetsConserved | sidecars/browser_egress_proxy/server.py:120-152 | over every interleaving the shared counter is what the live connections hold, limits hold, the clamp of `release` is never needed, and all counters return to zero |
| ProxyBudget.RefusedChargeIsFree | sidecars/browser_egress_proxy/server.py:142-147 | a charge changes nothing if and only if it is empty or one of the two limits forbids it |
| ProxyBudget.AsyncForwardProxy.Admit | sidecars/browser_egress_proxy/server.py:205-215 | admission takes the protocol's step |
| ProxyBudget.AsyncForwardProxy.Charge | sidecars/browser_egress_proxy/server.py:142-147 | so does a charge of one connection, and its refusal |
| ProxyBudget.AsyncForwardProxy.ReleaseBudget | sidecars/browser_egress_proxy/server.py:245-251 | so does the release of a connection's budget |
| ProxyBudget.AsyncForwardProxy.GiveUpPlace | sidecars/browser_egress_proxy/server.py:251-253 | so does giving up its place |

## Left out

Goodware importer:

- Gzip, the file system, temporary directories and the manifests' metadata fields: a v2 source is its decompressed reads, a v1 source its decompressed bytes, a table a map.
- The limits of Python itself in JSON: recursion depth and integers of more than 4300 digits.
- SHA-256 is any function; `GoodwareIndex.LookupIsSum` assumes that it separates the looked-up feature from the indexed ones (`NoCollision`). Lower case and NFC are functions of the environment, with the laws `UnicodeLaws` where they matter.
- GoodwareIndex.BuiltIsDeepVerified: of the deep verification, the row, count and sum queries only; SQLite's own integrity check, schema and metadata are not modelled.
- The integer that SQLite's REAL sum is printed as is any number above the maximum.

Relay:

- RelayRuns.RunInv: this and what follows from it is for runs with distinct live ids (`DistinctLiveIds`), which the code does not enforce; `RelayPartition` is for all runs. Restarts and files left over from an earlier process are not modelled, so at-most-once is per process.
- RelayClient.ClientMonotone: is for readings of one snapshot each, which the code does not guarantee; `RelayTornRead` has the others.
- RelayTornRead.GoesBackExactly: once the outbox holds the id, it is for an id of which at most one request is received; for ids used again a client needs the second look of `RelayTornRead.RereadGoesBackExactly`. The same goes for `RelayTornRead.BehindExactly`.
- RelayTornRead.BehindExactly: for ids used again `RelayTornRead.RereadIsNotBehind` has the half with the second look.
- Timestamps, the journal, the processed directory, the container that executes a query and signals. An execution is a completion with any result; methods arrive upper-cased; a listing of the inbox is any sequence of its files.

Code index:

- ChunkCoverage.SplitPython: the syntax-error fallback and Python's AST; nodes are arbitrary line ranges. The final sort is any reordering.
- ChunkCoverage.BuildFile: digests and terms of chunks, and reading files. `ChunkCoverage.NoLineLost` takes any order for the final sort.
- Ranking.ScoreBounds: over the reals, with any logarithm that is 0 at 1 and increases from there and any square root; rounding and tokenisation are not modelled.
- The dense ranking, embeddings and the cache, and the command line.

Proxy:

- Sockets, timeouts, DNS, authentication, CONNECT and the response path. `_copy_request_body`'s choice between framings and the Content-Length branch, which uses the same `CopyExact`.
- ProxyFraming.Connection.CopyChunkedBody: the two bytes after a chunk are forwarded unread, as in the code; the reader's own line limit is not modelled; what other connections hold of the shared budget may change at every charge.
- ProxyHeaders.ForwardedExactly: the condition covers the head and its fields; authentication, the health path, CONNECT and the checks on the target itself are outside it.
- ProxyHeaders.HeadRoundTrip: the path and the authority of the target are given, with what URL parsing guarantees of them (no line break, no space in the path); the domain and credential checks on the target are not modelled.
