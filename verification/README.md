# Librova core: a verified model

This project models the native core of Librova, a desktop e-book library, and proves what its
parts promise each other. It covers the import transaction system (the writer thread, the SQLite
repository with its full-text index, the parallel import loop, staging and compensation of single
imports, rollback of cancelled imports, Trash), the compiler from search queries to parameterised
SQL, and the text and byte codecs between the programs (UTF-8, text normalization, the pipe
envelope, the command line that starts the host).

Run `dafny verify dfyconfig.toml` to check everything.

## How it is organised

| file | what it models |
|---|---|
| `Wrappers.dfy`, `Decimals.dfy` | optional and fallible values; decimal numerals |
| `Utf8.dfy`, `MetadataNormalization.dfy` | UTF-8 and `NormalizeText` |
| `PipeProtocol.dfy` | request and response envelopes |
| `WideText.dfy`, `CommandLine.dfy`, `HostLaunch.dfy`, `HostGrammar.dfy` | UTF-16 and its conversions; quoting, splitting and parsing of the host's command line; which argument lists it accepts |
| `Catalogue.dfy`, `CatalogueRuns.dfy` | tables, postings and repository operations as values; runs of operations |
| `BookDatabase.dfy` | the repository as a class over statements that may fail, with its savepoints |
| `WriterDispatch.dfy`, `WriterThread.dfy`, `WriterRuns.dfy` | the writer protocol as a state machine, the class that performs its steps, and its histories as runs of operations |
| `ImportLoop.dfy`, `ImportAgreement.dfy`, `ImportAccounting.dfy` | main loop, pool, semaphore, events and writer together; imports and the index; totals and archive order |
| `ManagedLayout.dfy`, `FileStorage.dfy`, `ManagedStorage.dfy` | managed paths, files that may fail, staging and committing |
| `SingleFileImport.dfy`, `ImportRollback.dfy`, `Trash.dfy` | imports with compensation, rollback of many imports, deletion |
| `SearchExpression.dfy`, `SearchQuery.dfy`, `SearchPaging.dfy`, `DuplicateQuery.dfy` | queries, their compiled clauses, pages, facets and duplicates |

Failures are decided by oracles: functions from the number of a statement, file operation or other
step to whether it fails. A theorem about all oracles is a theorem about every pattern of failures.
Exceptions are values (`Result`, `Option`, outcome datatypes) or labelled blocks. The database, the
file system, the storage service, the coordinators and the totals are classes whose methods update
their fields; each method is proved against value-level functions, and the lemmas about those
functions say what the operations guarantee together.

Three parameters stand for code that is not modelled. The tokenizer of the full-text index is any
function with `Catalogue.IsLawful`: no terms in the empty text, and the terms of two texts with a
blank between them are the union of the terms of both (`Catalogue.WordTermsIsLawful` shows that such
a tokenizer exists). `Matcher` decides a MATCH expression from the postings of one row. `compress`
stands for the deflate encoding of managed files.

## Findings

- `CSqliteBookRepository::Compact` rebuilds the index outside any transaction. A statement that fails
  on the way leaves live books without postings. Agreement survives every possible interruption if and
  only if no live book has anything to index (`CatalogueRuns.EveryInterruptionAgreesIff`; for one
  interruption, `CatalogueRuns.InterruptedRebuildAgreesIff`). `BookDatabase.InterruptedCompactLosesAgreement`
  runs into it with a catalogue of one book. The next completed rebuild repairs the index whatever
  state it is in (`CatalogueRuns.RebuiltAgrees`).
- `RemoveBatch` leaves postings behind. They stay harmless as long as ids come from `ReserveIds`
  (`CatalogueRuns.RunKeepsRetired`); a book added without an id can revive them
  (`CatalogueRuns.UnreservedIdRevivesPostings`), and `CatalogueRuns.InsertAgreesIff` says exactly when.
- A launch option with a NUL character passes `Validate` and is cut short on the command line; one with
  an unpaired surrogate passes too, and the host's conversion to UTF-8 replaces the surrogate. The
  launch round trip holds if and only if no printed option contains either
  (`HostLaunch.HostRecoversLaunchOptions`, `HostLaunch.ValidationAcceptsNul`,
  `HostLaunch.ValidationAcceptsUnpairedSurrogate`).
- `NormalizeText` is not idempotent on all byte strings: the lenient decoder reads the overlong form
  C0 A0 as a blank, which a second application strips (`MetadataNormalization.OverlongBlankIsNotIdempotent`).
  It is idempotent if and only if the collapsed bytes are still collapsed when they are read leniently
  (`MetadataNormalization.NormalizeTextIsIdempotentIff`); every encoded text and many ill-formed ones are.
- The default move operation of the Trash service is a rename that overwrites, so its search for a
  free name never gets past the first candidate. When a failed deletion puts the staged files back,
  they are what they were if and only if the staging overwrote nothing, and otherwise a file is lost
  (`Trash.TrashFacade.RestoreStagedPaths`). With file operations that work, that is so if and only if
  the destinations in Trash were free beforehand (`Trash.TrashFacade.MoveBookToTrash`);
  `Trash.FailedRemovalLosesFile` is a run that loses one.
- `PreReservedBookId.value_or(repo.ReserveId())` reserves an id even when the caller has brought one;
  `SingleFileImport.Coordinator.Examine` follows the code.
- In `CommitImport` the branch that moves a cover back cannot be reached: nothing throws after the
  cover has been moved. The same holds for the size check on the results of `AddBatch` in the writer
  loop. Neither branch appears in the model.

## Model

| member | source | states |
|---|---|---|
| Utf8.Encode | libs/Domain/MetadataNormalization.cpp:98-125 | one to four bytes, the first below 80 hex exactly for ASCII |
| Utf8.TryDecode | libs/Domain/MetadataNormalization.cpp:17-96 | a decoded sequence has one to four bytes and lies inside the input |
| Utf8.DecodeInvertsEncode | libs/Domain/MetadataNormalization.cpp:17-125 | decoding an encoded code point followed by anything gives it back with its length |
| Utf8.StrictLength | libs/Foundation/UnicodeConversion.cpp:74-147 | the strict sequence at an index ends inside the input |
| Utf8.StrictStartIsEncodedScalar | libs/Foundation/UnicodeConversion.cpp:74-147 | what the strict check accepts is the encoding of the scalar value the lenient decoder reads there |
| Utf8.DecodeAllInvertsEncodeAll | libs/Foundation/UnicodeConversion.cpp:74-147 | decoding a concatenation of encoded scalar values returns them |
| Utf8.EncodeAllInvertsDecodeAll | libs/Foundation/UnicodeConversion.cpp:74-147 | re-encoding what was decoded returns the same bytes |
| Utf8.WellFormedIffDecodes | libs/Foundation/UnicodeConversion.cpp:74-147 | a text decodes strictly exactly if it is well formed (section 4 of RFC 3629) |
| Utf8.EncodeAllIsInjective | libs/Domain/MetadataNormalization.cpp:98-125 | different scalar sequences have different encodings |
| Utf8.IsValidUtf8 | libs/Foundation/UnicodeConversion.cpp:74-147 | accepts exactly the well-formed byte strings |
| MetadataNormalization.CollapseIsCollapsed | libs/Domain/MetadataNormalization.cpp:207-240 | collapsing leaves single interior blanks, no blank at either end, nothing new but blanks, and no longer a text |
| MetadataNormalization.CollapseFixesCollapsed | libs/Domain/MetadataNormalization.cpp:207-240 | the collapsed shape characterises the texts that collapsing leaves alone |
| MetadataNormalization.CollapseCommutesWithEncoding | libs/Domain/MetadataNormalization.cpp:207-240 | collapsing bytes and collapsing code points agree |
| MetadataNormalization.CollapseKeepsVisible | libs/Domain/MetadataNormalization.cpp:207-240 | collapsing keeps exactly the characters that are not blank, tab or line end, in order, and of those only blanks stay |
| MetadataNormalization.AppendLowercasedNormalizedUtf8 | libs/Domain/MetadataNormalization.cpp:186-205 | appends the folded text and copies bytes that do not decode |
| MetadataNormalization.Normalize | libs/Domain/MetadataNormalization.cpp:207-240 | the two loops compute folding of the collapsed text |
| MetadataNormalization.NormalizeTextOnCodePoints | libs/Domain/MetadataNormalization.cpp:127-240 | on encoded code points the result encodes the folded, space-collapsed code points |
| MetadataNormalization.NormalizeTextIsWellFormed | libs/Domain/MetadataNormalization.cpp:207-240 | valid input gives valid, collapsed output of folded code points |
| MetadataNormalization.NormalizeTextIsIdempotentIff | libs/Domain/MetadataNormalization.cpp:17-240 | for all bytes, a second application changes nothing exactly if the collapsed bytes, read by the lenient decoder, are still collapsed |
| MetadataNormalization.FoldBytesIsIdempotent | libs/Domain/MetadataNormalization.cpp:186-205 | folding alone is idempotent on all bytes, decodable or not |
| MetadataNormalization.NormalizeTextIsIdempotent | libs/Domain/MetadataNormalization.cpp:207-240 | a second application changes nothing on encoded code points, surrogates included |
| MetadataNormalization.OverlongBlankIsNotIdempotent | libs/Domain/MetadataNormalization.cpp:17-240 | two ill-formed texts: for C0 A0 a second application does change the result, and FF is its own normal form |
| MetadataNormalization.NormalFormsAgreeIff | libs/Domain/MetadataNormalization.cpp:207-240 | two texts normalize alike exactly if their collapsed texts agree letter by letter up to case of the two alphabets and YO for IE |
| MetadataNormalization.NormalFormReading | libs/Domain/MetadataNormalization.cpp:127-240 | for all bytes, each letter of the normal form is the collapsed one, small if it was a capital of the two alphabets, IE if it was YO |
| MetadataNormalization.NormalFormHasNoCapitals | libs/Domain/MetadataNormalization.cpp:127-165 | no normal form has an ASCII or Cyrillic capital or a YO |
| MetadataNormalization.NormalizeTextShrinks | libs/Domain/MetadataNormalization.cpp:186-240 | the result is never longer than the input, for any bytes |
| PipeProtocol.FromInvertsLittleEndian | libs/Transport/PipeProtocol.cpp:18-58 | reading a little-endian number gives the number that was written |
| PipeProtocol.LittleEndianInvertsFrom | libs/Transport/PipeProtocol.cpp:18-58 | writing the number that was read gives the same bytes |
| PipeProtocol.AppendString | libs/Transport/PipeProtocol.cpp:86-100 | length prefix and bytes, or the error for a text too long for the prefix |
| PipeProtocol.ReadU32 | libs/Transport/PipeProtocol.cpp:30-43 | reads the number at the offset and advances past it, or fails on a short input |
| PipeProtocol.ReadU64 | libs/Transport/PipeProtocol.cpp:45-58 | reads the number at the offset and advances past it, or fails on a short input |
| PipeProtocol.ReadString | libs/Transport/PipeProtocol.cpp:60-84 | reads a sized text at the offset and advances past it, or fails on a short input |
| PipeProtocol.SerializeRequestEnvelope | libs/Transport/PipeProtocol.cpp:140-150 | the request bytes, or the error for a payload that does not fit |
| PipeProtocol.SerializeResponseEnvelope | libs/Transport/PipeProtocol.cpp:152-163 | the response bytes, or the error for texts that do not fit |
| PipeProtocol.DeserializeRequestEnvelope | libs/Transport/PipeProtocol.cpp:165-226 | the offset reader computes the recursive parse of the whole input, error for error |
| PipeProtocol.DeserializeResponseEnvelope | libs/Transport/PipeProtocol.cpp:228-296 | the offset reader computes the recursive parse of the whole input, error for error |
| PipeProtocol.RequestParsesIffSerialized | libs/Transport/PipeProtocol.cpp:140-226 | bytes parse to a request exactly if they are its serialization: round trip both ways |
| PipeProtocol.ResponseParsesIffSerialized | libs/Transport/PipeProtocol.cpp:152-296 | bytes parse to a response exactly if they are its serialization: round trip both ways |
| PipeProtocol.EnvelopeKindsAreDisjoint | libs/Transport/PipeProtocol.cpp:165-296 | no byte string is both a request and a response |
| PipeProtocol.RequestMeaning | libs/Transport/PipeProtocol.cpp:165-226 | byte by byte, which inputs are refused as a request and with which error, the first fault deciding, and where the fields of the others are |
| PipeProtocol.ResponseMeaning | libs/Transport/PipeProtocol.cpp:228-296 | the same for responses with their two strings |
| WideText.WideToUtf8IsWellFormed | libs/Foundation/UnicodeConversion.cpp:150-187 | converting any UTF-16 gives well-formed UTF-8 that decodes to its code points, unpaired surrogates replaced |
| WideText.ReceivedUnchangedIff | libs/Foundation/UnicodeConversion.cpp:150-222 | converting to UTF-8 and back changes nothing exactly if all surrogates are paired |
| WideText.ReceivedIsWellFormed | libs/Foundation/UnicodeConversion.cpp:150-222 | what comes back is well formed, and another conversion changes neither it nor its bytes |
| WideText.SameBytesIffSameReceived | libs/App/HostOptions.cpp:71-276 | comparing the UTF-8 bytes of two arguments is comparing what the conversions return |
| CommandLine.Quote | apps/Librova.UI/CoreHost/CoreHostProcess.cs:170-213 | the backslash-counting loop computes the recursive quotation |
| CommandLine.QuoteWindowsArgument | libs/Converter/ExternalBookConverter.cpp:31-78 | quotes only where needed, by the same rules |
| CommandLine.BuildCommandLine | libs/Converter/ExternalBookConverter.cpp:80-91 | executable and arguments, each quoted, with blanks between them |
| CommandLine.ScanInvertsQuoteTail | apps/Librova.UI/CoreHost/CoreHostProcess.cs:170-213 | the documented splitting rules read any quoted text back, whatever backslashes and quotes it holds |
| CommandLine.SplitInvertsLine | apps/Librova.UI/CoreHost/CoreHostProcess.cs:118-213 | splitting a line of printed arguments returns their values |
| CommandLine.ConverterArgumentsReadBack | libs/Converter/ExternalBookConverter.cpp:31-91 | a converter sees exactly the arguments it was given |
| CommandLine.ArgumentsHaveNoNul | apps/Librova.UI/CoreHost/CoreHostProcess.cs:118-213 | no argument of a NUL-terminated line contains a NUL |
| HostLaunch.StoullInvertsDecimal | libs/App/HostOptions.cpp:18-69 | the host reads back every decimal number below two to the sixty-fourth |
| HostGrammar.StoullReadsNumeral | libs/App/HostOptions.cpp:18-69 | spaces, a sign, digits and anything after them are read as the number, which wraps under a minus sign, unless it needs more than 64 bits |
| HostGrammar.StoullNeedsNumeral | libs/App/HostOptions.cpp:18-69 | nothing else is read as a number |
| HostLaunch.BuildArguments | apps/Librova.UI/CoreHost/CoreHostProcess.cs:118-168 | the appended line is the rendering of the settings of the options, in order |
| HostLaunch.Parse | libs/App/HostOptions.cpp:71-276 | the index loop computes the recursive parse of the argument list, error for error |
| HostGrammar.OptionOfMeaning | libs/App/HostOptions.cpp:71-246 | an argument names an option exactly if it is its long name, or the short form of help |
| HostGrammar.ParseMeaning | libs/App/HostOptions.cpp:71-276 | every argument list is options that fit and then nothing, in which case the last values are judged together, or words that do not fit, and the error is the one for them |
| HostGrammar.ReadingDecides | libs/App/HostOptions.cpp:71-276 | whatever way a list is read as options that fit and a rest, the answer is that of this reading: the options with the last values, or the error by name |
| HostGrammar.LastMeaning | libs/App/HostOptions.cpp:71-246 | the value of an option is the one at its last place in the list |
| HostLaunch.ParseAppliesSettings | libs/App/HostOptions.cpp:71-276 | parsing printed settings applies them one after the other |
| HostLaunch.SettingsApplied | libs/App/HostOptions.cpp:71-276 | applying the settings of valid launch options gives exactly the requested host options |
| HostLaunch.CollectArguments | apps/Librova.Core.Host/Main.cpp:51-89 | the loop converts every argument of the split line |
| HostLaunch.ParsedTextsTravel | libs/App/HostOptions.cpp:71-276 | nothing the host parses from a command line contains a NUL or an unpaired surrogate |
| HostLaunch.HostRecoversLaunchOptions | apps/Librova.UI/CoreHost/CoreHostProcess.cs:118-213 | for valid options, printing, splitting, converting and parsing recovers every requested setting if and only if no printed text contains a NUL or an unpaired surrogate |
| HostLaunch.Launch | apps/Librova.UI/CoreHost/CoreHostProcess.cs:40-60 | the whole path from options to parsed host options succeeds with the right settings exactly for options without NUL and unpaired surrogates |
| HostLaunch.ValidationAcceptsNul | apps/Librova.UI/CoreHost/CoreHostLaunchOptions.cs:25-135 | concrete options that pass validation and do contain a NUL |
| HostLaunch.ValidationAcceptsUnpairedSurrogate | apps/Librova.UI/CoreHost/CoreHostLaunchOptions.cs:25-135 | concrete options that pass validation, contain no NUL, and reach the host with another library root |
| Catalogue.FindEntity | libs/Database/SqliteEntityHelpers.cpp:29-60 | finds a row with the normalized name, or there is none |
| Catalogue.LinkNameMeaning | libs/Database/SqliteEntityHelpers.cpp:29-60 | upserting and linking a name adds it to its book only, keeps uniqueness and the first display name |
| Catalogue.LinkedMeaning | libs/Database/SqliteBookRepository.cpp:30-85 | linking a list stores exactly its distinct non-empty normalized names and touches no other book |
| Catalogue.TermsOfJoined | libs/Database/SearchIndexMaintenance.cpp:13-35 | the terms of the joined text are those of the distinct names: duplicates and order are lost on the index |
| Catalogue.WordsAcrossBlank | libs/Database/SearchIndexMaintenance.cpp:13-35 | words of texts joined by a blank are the words of the parts |
| Catalogue.WordTermsIsLawful | libs/Database/SearchIndexMaintenance.cpp:13-35 | a tokenizer with the assumed law exists |
| CatalogueRuns.InsertedMeaning | libs/Database/SqliteBookRepository.cpp:140-218 | an insert stores title, language, series, description, format, paths and hash of its book in one new row and what it indexed, and leaves rows and postings of other books alone |
| CatalogueRuns.BookPostingsMeaning | libs/Database/SearchIndexMaintenance.cpp:154-169 | a book is indexed in each column under exactly the terms of its title, of its names, or of its description |
| CatalogueRuns.TargetMeaning | libs/Database/SqliteBookRepository.cpp:140-218 | a book keeps the id it brings, and one without gets the id after the last |
| CatalogueRuns.InsertAgreesIff | libs/Database/SearchIndexMaintenance.cpp:154-169 | an insert keeps index agreement exactly if stale postings under its row id are postings of the new book |
| CatalogueRuns.RowsRemovedMeaning | libs/Database/SqliteBookRepository.cpp:473-498 | deleting rows cascades to links, keeps entities and postings, and leaves the other books as they were |
| CatalogueRuns.RemovedRow | libs/Database/SqliteBookRepository.cpp:415-431 | removing a book takes exactly its row and keeps the constraints |
| CatalogueRuns.RemovedMeaning | libs/Database/SearchIndexMaintenance.cpp:171-177 | removing a book from an index that agrees takes exactly the postings of that book, and the rest still agrees |
| CatalogueRuns.RemoveUndoesInsert | libs/Database/SearchIndexMaintenance.cpp:154-177 | postings derived from de-duplicated stored names are exactly what the original insert added: rows and index are as before it |
| CatalogueRuns.RebuiltAgrees | libs/Database/SearchIndexMaintenance.cpp:179-193 | a completed rebuild agrees with the tables, whatever the index held |
| CatalogueRuns.InterruptedRebuildAgreesIff | libs/Database/SearchIndexMaintenance.cpp:179-193 | an interrupted rebuild agrees exactly if every book it missed has nothing to index |
| CatalogueRuns.EveryInterruptionAgreesIff | libs/Database/SearchIndexMaintenance.cpp:179-193 | agreement survives an interruption at any point exactly if no live book has anything to index |
| CatalogueRuns.InterruptedRebuildForgetsBook | libs/Database/SearchIndexMaintenance.cpp:179-193 | a catalogue of one titled book agrees and loses agreement when the rebuild stops before it |
| CatalogueRuns.StepIsSound | libs/Database/SqliteBookRepository.cpp:244-578 | every operation keeps ids below the sequence, reserved ids free of rows and postings, and (an interrupted rebuild aside) agreement |
| CatalogueRuns.RunKeepsIndexAgreement | libs/Database/SqliteBookRepository.cpp:244-578 | over every run on reserved ids, with any failures, live books have exactly their postings unless an interrupted rebuild is unrepaired |
| CatalogueRuns.NewLibraryKeepsIndexAgreement | libs/Database/SqliteBookRepository.cpp:244-578 | the same from an empty library on, with no assumption about the start |
| CatalogueRuns.RunKeepsRetired | libs/Database/SqliteBookRepository.cpp:305-344 | an id that was used up or given away never becomes live again |
| CatalogueRuns.StalePostingsAreRetired | libs/Database/SqliteBookRepository.cpp:473-498 | postings without a row belong to retired ids |
| CatalogueRuns.UnreservedIdRevivesPostings | libs/Database/SqliteBookRepository.cpp:140-218 | a concrete run in which a book without a reserved id inherits the postings of a removed one |
| CatalogueRuns.AnswerMeaning | libs/Database/SqliteBookRepository.cpp:244-277 | imported, rejected and failed answers say exactly what happened to the tables, column by column for an imported book, and which older book has the hash |
| CatalogueRuns.AddAllKeepsHashesUnique | libs/Database/SqliteBookRepository.cpp:509-578 | without forced adds no two books share a non-empty hash, not even within one batch |
| CatalogueRuns.SameHashIsImportedOnce | libs/Database/SqliteBookRepository.cpp:509-578 | of two unforced entries of a batch with the same hash at most one is imported |
| CatalogueRuns.RunKeepsHashesUnique | libs/Database/SqliteBookRepository.cpp:244-578 | the same over every run of operations |
| BookDatabase.JoinNormalizedText | libs/Database/SearchIndexMaintenance.cpp:13-35 | the loop joins the non-empty normalized values with blanks |
| BookDatabase.Database.constructor | libs/Database/SqliteBookRepository.cpp:222-242 | a session over given tables with no open transaction |
| BookDatabase.Database.Save | libs/Database/SqliteBookRepository.cpp:509-578 | opening a transaction or savepoint remembers the tables, or fails without effect |
| BookDatabase.Database.RollbackTo | libs/Database/SqliteBookRepository.cpp:509-578 | restores the tables of the innermost savepoint and keeps it open |
| BookDatabase.Database.InsertName | libs/Database/SqliteEntityHelpers.cpp:29-60 | upsert, read back and link as three statements equal one linked name |
| BookDatabase.Database.InsertNames | libs/Database/SqliteGenreHelpers.cpp:19-48 | the loop with its set of inserted names links the list, or a statement failed |
| BookDatabase.Database.InsertIntoIndex | libs/Database/SearchIndexMaintenance.cpp:154-169 | adds the postings of the metadata the caller passed |
| BookDatabase.Database.DoAddBook | libs/Database/SqliteBookRepository.cpp:140-218 | row, links and postings are all written, or it reports failure because the id is taken or a statement failed |
| BookDatabase.Database.AddBook | libs/Database/SqliteBookRepository.cpp:244-277 | one transaction: the whole insert, a rejection naming the book with the hash, or no change at all |
| BookDatabase.Database.AddBatchSequentially | libs/Domain/BookRepository.cpp:18-54 | the default batch adds the entries one by one, and each faulty entry had a failed statement of its own |
| BookDatabase.Database.AddUnderSavepoint | libs/Database/SqliteBookRepository.cpp:509-578 | one entry under its savepoint equals one Add, including the full undo of a half-written entry |
| BookDatabase.Database.AddBatch | libs/Database/SqliteBookRepository.cpp:509-578 | the savepoint batch has the answers and tables of the sequential one, each faulty entry by a failed statement of its own; if it throws, nothing has changed and a statement failed |
| BookDatabase.Database.ReserveIds | libs/Database/SqliteBookRepository.cpp:305-344 | consecutive ids from the sequence, which moves past them, or no change |
| BookDatabase.Database.ReadRelatedEntityNames | libs/Database/SqliteEntityHelpers.cpp:62-78 | the display names read back normalize to exactly the stored names |
| BookDatabase.Database.StoredMetadataPostings | libs/Database/SqliteBookRepository.cpp:87-138 | metadata read back yields the postings the tables define |
| BookDatabase.Database.RemoveFromIndex | libs/Database/SearchIndexMaintenance.cpp:171-177 | deletes exactly the postings that the tables say the book has |
| BookDatabase.Database.Remove | libs/Database/SqliteBookRepository.cpp:415-431 | row, links and postings go together, or nothing has changed and a statement failed |
| BookDatabase.Database.RemoveBatch | libs/Database/SqliteBookRepository.cpp:473-498 | all rows go in one transaction, or none |
| BookDatabase.Database.ReadAllBooksForRebuild | libs/Database/SearchIndexMaintenance.cpp:81-150 | every live book with the postings its stored metadata has |
| BookDatabase.Database.IndexAll | libs/Database/SearchIndexMaintenance.cpp:179-193 | adds the postings of a prefix of the books, all of them unless a statement failed |
| BookDatabase.Database.RebuildAll | libs/Database/SearchIndexMaintenance.cpp:179-193 | a complete rebuild, or exactly how far an interrupted one can have got |
| BookDatabase.Database.Compact | libs/Database/SqliteBookRepository.cpp:433-471 | when it returns the index is rebuilt; when it throws the rebuild may be partial, and it is empty if the first book cannot be indexed |
| BookDatabase.InterruptedCompactLosesAgreement | libs/Database/SqliteBookRepository.cpp:433-471 | a run on one book: the index agreed, a statement failed, and it no longer does |
| WriterDispatch.ReplayBatch | libs/Import/WriterDispatchingRepository.cpp:191-209 | a batch replays as its writes one by one |
| WriterDispatch.ReplayOfWrites | libs/Domain/BookRepository.cpp:18-54 | replaying writes is the sequential AddBatch of the plain repository with the same failures |
| WriterDispatch.StepKeepsInv | libs/Import/WriterDispatchingRepository.cpp:112-250 | every step of callers and writer keeps the partition of requests and the explanation of answers |
| WriterDispatch.WritesAreLinearizable | libs/Import/WriterDispatchingRepository.cpp:80-250 | after any run the tables and every answer are those of the same calls made one by one in queue order |
| WriterDispatch.ExitLeavesNothingUnanswered | libs/Import/WriterDispatchingRepository.cpp:155-250 | once the writer has exited, every accepted write has its effect in the history and exactly one answer |
| WriterDispatch.BatchesAreFifo | libs/Import/WriterDispatchingRepository.cpp:163-184 | a batch has one to fifty requests, the oldest unanswered ones, in order |
| WriterDispatch.StepExtends | libs/Import/WriterDispatchingRepository.cpp:112-250 | answers are never changed or set twice, and only the oldest open request is answered |
| WriterDispatch.AnswersBearOwnIds | libs/Import/WriterDispatchingRepository.cpp:80-110 | a request for a book with an id, if answered as imported, is answered with that id |
| WriterDispatch.WorkFalls | libs/Import/WriterDispatchingRepository.cpp:155-250 | each writer step but an idle wake-up reduces the outstanding work |
| WriterDispatch.WriterCanGoOn | libs/Import/WriterDispatchingRepository.cpp:155-250 | a writer that has not exited has an enabled step, a productive one if anything is queued or a stop was requested |
| WriterRuns.BatchIsLegal | libs/Import/WriterDispatchingRepository.cpp:191-209 | a batch is a legal run of single adds that leaves the ids of waiting requests reserved |
| WriterRuns.StepKeepsReserved | libs/Import/WriterDispatchingRepository.cpp:112-250 | after every step the history is a legal run of operations leading to the tables, and outstanding requests have reserved ids of their own |
| WriterRuns.InterleavingsKeepIndexAgreement | libs/Import/WriterDispatchingRepository.cpp:54-250 | for every interleaving that submits each reserved id at most once, the index agrees with the tables unless an interrupted rebuild is unrepaired |
| WriterThread.WriterDispatchingRepository.constructor | libs/Import/WriterDispatchingRepository.cpp:15-23 | starts waiting with an empty queue |
| WriterThread.WriterDispatchingRepository.Submit | libs/Import/WriterDispatchingRepository.cpp:112-135 | refuses in the fatal or stopped state, otherwise queues with the next ticket |
| WriterThread.WriterDispatchingRepository.RequestStop | libs/Import/WriterDispatchingRepository.cpp:30-43 | raises the stop flag and nothing else |
| WriterThread.WriterDispatchingRepository.PopBatch | libs/Import/WriterDispatchingRepository.cpp:173-177 | takes the longest allowed front of the queue |
| WriterThread.WriterDispatchingRepository.TakeBatch | libs/Import/WriterDispatchingRepository.cpp:163-189 | performs the take step: a batch in hand, exit, or sleep again |
| WriterThread.WriterDispatchingRepository.RunBatch | libs/Import/WriterDispatchingRepository.cpp:191-243 | performs the step of a batch that returned or threw, on the real repository, with a failed statement behind every fault |
| WriterThread.WriterDispatchingRepository.AnswerOldest | libs/Import/WriterDispatchingRepository.cpp:222-248 | sets the promise of the oldest request with its own result |
| WriterThread.WriterDispatchingRepository.EnterFatalState | libs/Import/WriterDispatchingRepository.cpp:227-242 | refuses later writes and claims the queued ones to fail them |
| WriterThread.WriterDispatchingRepository.WriterStep | libs/Import/WriterDispatchingRepository.cpp:155-250 | each iteration is an enabled step of the protocol and reduces the work |
| WriterThread.WriterDispatchingRepository.Drain | libs/Import/WriterDispatchingRepository.cpp:30-52 | ends with the writer exited and every accepted write answered, earlier answers unchanged |
| ImportLoop.MoveKeepsInv | libs/App/LibraryImportFacade.cpp:516-674 | every move of main loop, workers and writer conserves permits, counts events and keeps the accounting |
| ImportLoop.FilingKeeps | libs/Import/ZipImportCoordinator.cpp:617-727 | an archive entry that is filed at once, or cannot be extracted and gives its permit back, keeps permits, events and accounting right |
| ImportLoop.EveryMoveShrinks | libs/App/LibraryImportFacade.cpp:516-674 | one measure of all threads falls on every move, idle writer wake-ups aside |
| ImportLoop.WaitingTaskIsServed | libs/Import/WriterDispatchingRepository.cpp:80-97 | a task that waits for an answer has it or leaves the writer something to do |
| ImportLoop.NeverStuck | libs/Import/ZipImportCoordinator.cpp:624-852 | in both import loops, until the main thread is done some thread can move; no cancellation is needed for that |
| ImportLoop.ParallelImportEnds | libs/App/LibraryImportFacade.cpp:516-674 | runs are finite, and one that cannot go on has a result for every source looked at, all events folded and all permits back |
| ImportLoop.ImportIsAccounted | libs/App/LibraryImportFacade.cpp:450-465 | processed equals imported plus failed plus skipped at all times; at the end the imported count is the number of collected ids |
| ImportLoop.CountersCountResults | libs/App/LibraryImportFacade.cpp:234-258 | at the end the counters are the numbers of failed and of skipped or cancelled results, and the flag says that one was cancelled |
| ImportLoop.ImportCanSucceed | libs/App/LibraryImportFacade.cpp:516-674 | for every catalogue and free id some run adds the book, lists its id and counts it as imported |
| ImportLoop.CollectedIdsWereImported | libs/App/LibraryImportFacade.cpp:644-656 | every id that the main thread lists is the reserved id of a source, was answered as imported by the writer and is listed once, in whatever order the threads ran |
| ImportLoop.MoveKeepsAnswers | libs/Import/WriterDispatchingRepository.cpp:112-250 | no move of any thread withdraws or changes an answer |
| ImportAgreement.MoveKeepsReserved | libs/App/LibraryImportFacade.cpp:516-674 | every move of an import keeps the writer's history a legal run and the ids of later writes reserved |
| ImportAgreement.ParallelImportKeepsIndexAgreement | libs/App/LibraryImportFacade.cpp:516-674 | at every point of a parallel import, with any failures, cancellations and compensations, live books have exactly their postings |
| ImportAccounting.ScanArchive | libs/Import/ZipImportCoordinator.cpp:624-847 | every entry but directories gets one slot, filed by its kind, in archive order; submitted entries take the reserved ids in order |
| ImportAccounting.CollectResults | libs/Import/ZipImportCoordinator.cpp:854-865 | one result per slot, in archive order, and the marker of a cancelled scan |
| ImportAccounting.SubmittedIdsAreDistinct | libs/Import/ZipImportCoordinator.cpp:730-846 | no two submitted entries share a reserved id |
| ImportAccounting.IdCountIsOrderFree | libs/App/LibraryImportFacade.cpp:540-560 | the number of imported books does not depend on the order in which events arrive |
| ImportAccounting.StatusCounts | libs/App/LibraryImportFacade.cpp:234-258 | which counters each status of a finished import moves, and by one each |
| ImportAccounting.AfterEventsCounts | libs/App/LibraryImportFacade.cpp:448-462 | folded events count for what they are, in whatever order they arrive |
| ImportAccounting.ImportTotals.ApplyEvents | libs/App/LibraryImportFacade.cpp:450-465 | each fold keeps and reports balanced totals, and the counters grow by how often each outcome is among the events |
| ImportAccounting.ImportTotals.CollectIds | libs/App/LibraryImportFacade.cpp:644-656 | appends the ids of the imported results in submission order |
| ImportAccounting.ImportTotals.ApplyArchive | libs/App/LibraryImportFacade.cpp:709-796 | adds exactly the failed, skipped and imported entries and the ids in archive order; cancelled entries count as not processed |
| ImportAccounting.ImportTotals.FailArchive | libs/App/LibraryImportFacade.cpp:798-823 | an archive that threw counts its planned entries, at least one, as failed |
| ImportAccounting.ImportTotals.RunSource | libs/App/LibraryImportFacade.cpp:467-674 | which sources rethrow, which ids are added, how many files count as failed and skipped, and what cancels |
| ImportAccounting.ImportTotals.Run | libs/App/LibraryImportFacade.cpp:676-883 | balanced reports, an id list as long as the imported count, before or after rollback, and counters that are the sums over the sources that ran |
| ManagedLayout.ComputeBookShardHash | libs/Storage/ManagedLibraryLayout.cpp:16-26 | the loop computes the 32-bit FNV-1a hash |
| ManagedLayout.LastCharacterMatters | libs/Storage/ManagedLibraryLayout.cpp:16-26 | names that differ only in their last character have different hashes |
| ManagedLayout.ShardsSpellHash | libs/Storage/ManagedLibraryLayout.cpp:28-65 | the two shard directories spell the low sixteen bits of the hash in hexadecimal, the lowest byte first |
| ManagedLayout.HashOfLetter | libs/Storage/ManagedLibraryLayout.cpp:13-26 | the published FNV-1a value of one letter, starting from the offset basis |
| ManagedLayout.FileNames | libs/Storage/ManagedLibraryLayout.cpp:67-105 | the names of book and cover files for each format and encoding |
| ManagedLayout.FolderName | libs/Storage/ManagedLibraryLayout.cpp:46-54 | at least ten characters, all of them digits |
| ManagedLayout.ShardBucket | libs/Storage/ManagedLibraryLayout.cpp:28-31 | always two characters and never a dot segment |
| ManagedLayout.OwnerInvertsManagedPaths | libs/Storage/ManagedLibraryLayout.cpp:46-105 | the book id can be read back from every managed path |
| ManagedLayout.BookIsNotCover | libs/Storage/ManagedLibraryLayout.cpp:66-105 | book file and cover of one book have different paths |
| ManagedLayout.ManagedPathsAreDistinct | libs/Storage/ManagedLibraryLayout.cpp:66-105 | distinct ids have distinct managed paths, whatever formats and extensions |
| ManagedLayout.ManagedPathsAreSafe | libs/Storage/ManagedPathSafety.cpp:14-41 | managed paths pass the safety check for stored relative paths |
| FileStorage.FileSystem.RemoveAll | libs/Foundation/FileSystemUtils.cpp:23-32 | removes only what lies at or below the path, and all of it unless it failed |
| FileStorage.FileSystem.Write | libs/Storage/ManagedFileEncoding.cpp:87-132 | writes the content, or leaves damage at the destination only |
| ManagedStorage.Storage.MoveFile | libs/Storage/ManagedFileStorage.cpp:111-175 | the destination gets the content by rename or copy; the source is gone unless its removal failed; it fails only if the source is missing or a file operation failed, and then leaves the source alone |
| ManagedStorage.Storage.EncodeFile | libs/Storage/ManagedFileEncoding.cpp:62-132 | the destination gets the encoded source, with nothing else new beside it; it fails only if the source is missing or a file operation failed |
| ManagedStorage.Storage.StageCover | libs/Storage/ManagedFileStorage.cpp:263-279 | stages the cover under its extension and plans its final place; it fails only for a cover that cannot be staged or with a failed file operation |
| ManagedStorage.Storage.StagingDirectoriesAreApart | libs/Storage/ManagedFileStorage.cpp:225-262 | imports of different books stage their files in directories that lie apart |
| ManagedStorage.Storage.PrepareImport | libs/Storage/ManagedFileStorage.cpp:225-288 | planned places and staged files with the right content, or no new file; only the staging directory changes; files that can be staged are, unless a file operation failed |
| ManagedStorage.Storage.PlacesAreApart | libs/Storage/ManagedFileStorage.cpp:231-268 | final places lie outside every staging directory and differ from each other |
| ManagedStorage.Storage.MoveToFinal | libs/Storage/ManagedFileStorage.cpp:297-316 | book then cover reach their final places, or it says how far it got |
| ManagedStorage.Storage.UndoMoves | libs/Storage/ManagedFileStorage.cpp:320-392 | moves the book back if it had been moved, or a file operation failed |
| ManagedStorage.Storage.CommitImport | libs/Storage/ManagedFileStorage.cpp:290-397 | on return the final files hold what was staged; it throws only if a staged file is missing or a file operation failed; then the staged files are as they were, unless another operation failed after the first |
| ManagedStorage.Storage.RollbackImport | libs/Storage/ManagedFileStorage.cpp:399-420 | removes only files of its own book, and all planned ones if the removals work |
| ManagedStorage.Storage.OwnPlaces | libs/Storage/ManagedFileStorage.cpp:225-288 | everything at or below a planned path bears the id of its book |
| SingleFileImport.Coordinator.Examine | libs/Import/SingleFileImportCoordinator.cpp:553-637 | an early refusal has its reason and changes nothing; acceptance means no disallowed duplicate and uses up exactly one reserved id |
| SingleFileImport.Coordinator.Convert | libs/Import/ImportConversionPolicy.cpp:27-112 | which source is stored in which format, or why the import ends |
| SingleFileImport.Coordinator.WriteCover | libs/Import/SingleFileImportCoordinator.cpp:252-270 | writes at most one temporary file below the working directory |
| SingleFileImport.Coordinator.PrepareFiles | libs/Import/SingleFileImportCoordinator.cpp:652-775 | conversion, cover and staging leave only the traces they note, and the staged book has the right content |
| SingleFileImport.Coordinator.Publish | libs/Import/SingleFileImportCoordinator.cpp:777-832 | adds exactly one row, or rejects a late duplicate, or changes nothing |
| SingleFileImport.Coordinator.Deliver | libs/Import/SingleFileImportCoordinator.cpp:834-858 | the final files hold what was staged and the temporaries are gone if removals work; it fails only if a step or a file operation failed |
| SingleFileImport.Coordinator.CleanUp | libs/Import/SingleFileImportCoordinator.cpp:501-515 | removes every noted trace if the removals work, and nothing else |
| SingleFileImport.Coordinator.Compensate | libs/Import/SingleFileImportCoordinator.cpp:860-917 | takes the row back first and the files only then; keeps both when the row cannot be removed |
| SingleFileImport.AddedThenRemoved | libs/Import/SingleFileImportCoordinator.cpp:874-902 | removing a book just added restores the rows and keeps the catalogue consistent |
| SingleFileImport.Coordinator.WriteAndDeliver | libs/Import/SingleFileImportCoordinator.cpp:777-918 | after staging: row and files together, or neither, or a kept row because the database failed; it ends otherwise than imported only because something failed, somebody cancelled or the hash was taken |
| SingleFileImport.Coordinator.Run | libs/Import/SingleFileImportCoordinator.cpp:484-920 | import atomicity: imported means its row, column by column, and its files with the right content under the reserved or next id; any other result leaves neither, if removals work, unless the database failed while the row was taken back, and has its reason: a missing input, a failed step, statement or file operation, a stop, or a duplicate; nothing outside the book's own places changes |
| SingleFileImport.Coordinator.RunUndisturbed | libs/Import/SingleFileImportCoordinator.cpp:484-858 | a readable, admissible book under a free id is imported under that id if nothing fails and nobody cancels |
| SingleFileImport.Coordinator.OtherBooksKeepTheirFiles | libs/Import/SingleFileImportCoordinator.cpp:484-920 | no import changes a managed file of another book |
| ImportRollback.RollbackService.LookUp | libs/App/ImportRollbackService.cpp:390-428 | splits the ids into found and unreachable ones, each once, with the paths of the found ones |
| ImportRollback.RollbackService.RemoveReachable | libs/App/ImportRollbackService.cpp:432-482 | rows go in one batch or one by one; the answer names exactly those still there |
| ImportRollback.RollbackService.DeleteManagedFile | libs/App/ImportRollbackService.cpp:219-292 | deletes at most this file, only if its path is safe, and warns if it is still there; if no file operation fails it warns exactly for a file at an unsafe path |
| ImportRollback.RollbackService.PlacesMeaning | libs/App/ImportRollbackService.cpp:390-428 | the places of a book are the paths its row names, where they are safe |
| ImportRollback.RollbackService.CleanUpFiles | libs/App/ImportRollbackService.cpp:484-543 | deletes only files of books whose rows are gone and lists the others; if no file operation fails, all files at safe paths are gone and residue is reported exactly for files at unsafe ones |
| ImportRollback.RollbackService.RollbackImportedBooks | libs/App/ImportRollbackService.cpp:358-579 | each id is gone from the catalogue or listed once as remaining, and one remains only if a statement failed; only files of gone books are lost, all of them if there is no residue, and without failures residue is exactly the files at unsafe paths |
| ImportRollback.RollbackService.PlacesNameTheirOwner | libs/Storage/ManagedLibraryLayout.cpp:46-105 | the files of a managed row name its id |
| ImportRollback.RollbackService.RemainingBooksKeepTheirFiles | libs/App/ImportRollbackService.cpp:484-543 | no book that stays in the catalogue loses a file |
| ImportRollback.ImportedRowsAreManaged | libs/Import/SingleFileImportCoordinator.cpp:777-792 | rows written by imports name the managed files of their own id |
| Trash.StagingCount | libs/Storage/ManagedTrashService.cpp:14-38 | moving files one after the other loses a file exactly if one is moved over another |
| Trash.CandidatesDiffer | libs/Storage/ManagedTrashService.cpp:52-63 | numbered candidates are pairwise different names in the same directory |
| Trash.TrashService.Move | libs/Storage/ManagedTrashService.cpp:14-38 | renames, or changes nothing; an operation that refuses to overwrite only succeeds on a free destination, the default one always without faults |
| Trash.TrashService.MoveFileToCollisionSafeDestination | libs/Storage/ManagedTrashService.cpp:65-93 | the file goes to the first of 999 candidates that is not taken, or nothing changes |
| Trash.TrashService.MoveToTrash | libs/Storage/ManagedTrashService.cpp:105-119 | the file leaves its place for the matching place below Trash |
| Trash.TrashService.RestoreFromTrash | libs/Storage/ManagedTrashService.cpp:121-135 | the file moves back, or nothing changes |
| Trash.TrashFacade.RestoreStagedPaths | libs/App/LibraryTrashFacade.cpp:129-145 | when all staged files have been put back, the files are what they were if the staging overwrote nothing, and fewer otherwise; with the default move operation they are all put back unless a file operation failed |
| Trash.TrashFacade.PlannedAreCleanIff | libs/App/LibraryTrashFacade.cpp:183-224 | staging into the mirrored places overwrites nothing exactly if all of them were free beforehand |
| Trash.TrashFacade.StageArtifacts | libs/App/LibraryTrashFacade.cpp:183-224 | book then cover are staged; a cover that fails brings the book back; present files fail only with a failed file operation or without a free name |
| Trash.TrashFacade.StagingMeaning | libs/App/LibraryTrashFacade.cpp:183-224 | staged files have left their places and are in Trash with their content; nothing is lost or invented |
| Trash.TrashFacade.OfferToRecycleBin | libs/App/LibraryTrashFacade.cpp:235-279 | only staged files may be taken, and missing ones are reported as orphaned |
| Trash.TrashFacade.MoveBookToTrash | libs/App/LibraryTrashFacade.cpp:161-280 | a throw leaves the rows as they were, and the files too exactly if the staging overwrote nothing, which with file operations that work can be told from the free destinations beforehand; for an existing book with safe, different paths it happens only if a statement or file operation failed or no name was free; a result means the row is gone and every present file has left its place, for Trash unless the recycle bin took it |
| Trash.TrashFacade.MoveBookWithFailingRemoval | libs/App/LibraryTrashFacade.cpp:226-234 | whenever a destination is taken and moves overwrite, a failing removal of the row loses a file |
| Trash.FailedRemovalLosesFile | libs/App/LibraryTrashFacade.cpp:226-234 | a concrete catalogue, library and failing statement for which that happens |
| Trash.TrashFacade.ManagedFilesAreOutsideTrash | libs/Storage/ManagedLibraryLayout.cpp:35-105 | files written by imports never lie in Trash |
| SearchExpression.BuildFtsQuery | libs/Database/SqliteBookQueryRepository.cpp:26-89 | the loops compute the quoted tokens of the normalized, sanitized text |
| SearchExpression.ExpressionReadsBack | libs/Database/SqliteBookQueryRepository.cpp:26-89 | for every valid text the expression reads back as quoted prefixes of exactly the words of its normalized text, where everything but letters, digits and non-ASCII characters separates words; no text breaks out of its quotes |
| SearchQuery.BuildIdInClause | libs/Database/SqliteEntityHelpers.cpp:11-27 | prints the list of an IN condition, with exactly as many placeholders as asked |
| SearchQuery.AppendFilterAndConditions | libs/Database/SqliteBookQueryRepository.cpp:228-280 | the appended conditions are those of the compiled query |
| SearchQuery.BindFilterWhereParams | libs/Database/SqliteBookQueryRepository.cpp:282-329 | the bound values are those of the compiled query, in slot order |
| SearchQuery.MeaningOfThen | libs/Database/SqliteBookQueryRepository.cpp:228-329 | conditions and values may be concatenated: each part keeps its own values |
| SearchQuery.MeaningOfCompiled | libs/Database/SqliteBookQueryRepository.cpp:213-329 | as many slots as values, and a row passes exactly if each filter accepts it with its own value |
| SearchQuery.CompiledSelectsWanted | libs/Database/SqliteBookQueryRepository.cpp:213-336 | over any catalogue and both flags the clause selects exactly the books that satisfy the query |
| SearchQuery.OneRowPerBook | libs/Database/DatabaseSchema.cpp:41-83 | the author join never repeats a book, because names and links are unique |
| SearchQuery.LanguageFacetCountsBooks | libs/Database/SqliteBookQueryRepository.cpp:850-866 | COUNT(*) per language is the number of distinct selected books |
| SearchQuery.GenreFacetCountsBooks | libs/Database/SqliteBookQueryRepository.cpp:883-914 | COUNT(*) per genre display name is the number of distinct selected books |
| SearchPaging.TextOrderIsStrictTotal | libs/Database/SqliteBookQueryRepository.cpp:338-384 | binary collation is a strict total order |
| SearchPaging.FirstAuthor | libs/Database/SqliteBookQueryRepository.cpp:346-356 | the least normalized author of a book, and NULL exactly if it has none |
| SearchPaging.OrderIsStrictTotal | libs/Database/SqliteBookQueryRepository.cpp:361-381 | every ORDER BY list orders the books strictly and totally, in either direction |
| SearchPaging.OrderedMeaning | libs/Database/SqliteBookQueryRepository.cpp:361-381 | sorting keeps every element once and in order |
| SearchPaging.PagesAddUp | libs/Database/SqliteBookQueryRepository.cpp:331-336 | consecutive pages are the rest of the list |
| SearchPaging.PagesCoverTheResult | libs/Database/SqliteBookQueryRepository.cpp:806-848 | for every page size the pages one after the other are all books asked for, each once, as many as the count says, ordered by title, least author or date in the direction asked, with ties by the other columns of the list |
| SearchPaging.TextBeforeMeaning | libs/Database/SqliteBookQueryRepository.cpp:338-384 | a text comes before another exactly if it ends or has the smaller byte at the first difference |
| SearchPaging.OrderMeaning | libs/Database/SqliteBookQueryRepository.cpp:346-381 | per sort field: books are in order of normalized title, of the least author with authorless books first, or of the date, in either direction, with the ties of the ORDER BY list |
| DuplicateQuery.BuildNormalizedAuthors | libs/Database/SqliteBookQueryRepository.cpp:483-500 | the loop and the sort give the sorted non-empty normalized authors |
| DuplicateQuery.SortedAuthorsMeaning | libs/Database/SqliteBookQueryRepository.cpp:483-500 | the list is sorted, has exactly the normalized authors, and repeats one exactly if the candidate does |
| DuplicateQuery.AdjacentEqualMeansRepeated | libs/Database/SqliteBookQueryRepository.cpp:745-748 | looking at neighbours finds every repetition in a sorted list |
| DuplicateQuery.CountingComparesSets | libs/Database/SqliteBookQueryRepository.cpp:750-764 | the counting form holds exactly if title and author set are those asked for |
| DuplicateQuery.ProbableDuplicatesAreExact | libs/Database/SqliteBookQueryRepository.cpp:733-791 | the query returns exactly the books with the candidate's title and author set, and nothing for candidates it does not handle |
| DuplicateQuery.FindDuplicates | libs/Database/SqliteBookQueryRepository.cpp:916-996 | every existing book at most once, and exactly the qualifying ones with their first reason |

## Left out

- BookDatabase.Database.ReadRelatedEntityNames: promises the set of names, not their order, because `author_order` and the ORDER BY of tag and genre names are not stored.
- Columns that no filter or index uses (ISBN, publisher, year, size, source type of a genre) and `NormalizeIsbn`: plain copies; ISBN rows and their credibility enter `FindDuplicates` as parameters.
- SQLite itself: rollback of an abandoned transaction is taken to be effective, statements are atomic, and one writer holds the database at a time.
- `OptimizeSearchIndex` and the choice of the sorted position of an unindexed row: they do not change what the tables hold.
- Titles in the full-text index are the terms of the normalized title; ranking, prefixes and phrases are left to `Matcher`.
- LIMIT and OFFSET as 64-bit casts: the model takes natural numbers.
- `ListAvailableTags` and the NOCASE order of facets: the same clause with DISTINCT, and an order that no property uses.
- The SQL text itself: a clause is a list of conditions, and only the lists of IN conditions are characters.
- Memory order, wake-ups and time-outs of the condition variables: threads interleave in atomic steps under their locks.
- Extraction of archive entries, the sink that scales nested progress, throttling by the clock and all logging.
- The import coordinator writes through the plain repository here; that the writer thread gives the same answers is the linearizability theorem.
- Directory entries of an archive in the concurrent loop: they get no slot, and `ImportAccounting.ScanArchive` has them.
- Direct reads of the repository while the writer runs (`GetById` and duplicate queries of workers): reads change nothing and their answers enter imports as findings.
- Directories: files live at paths, `EnsureDirectory` may fail, and tidying empty directories can only warn.
- Paths compare component by component: no case folding, links, short names or drive letters.
- Absolute managed paths: stored paths are relative, as imports write them.
- Changes to the file system by other programs during an operation, apart from the converter that writes its output and the recycle bin that takes files.
- SingleFileImport.Coordinator.Run: requires the working directory, the staging root and the library root to lie apart from each other, as the host sets them up; the code accepts any.
- Files that a failing converter or parser leaves in the working directory without reporting an output.
- The text of warnings and error messages, and which warning is kept; results carry the facts that decide what happens next.
- EPUB and FB2 parsing, hashing, cover scaling and conversion: their answers are parameters of the import.
- Program name parsing of the command line: the splitting rules start after the executable.
- Conversion of ill-formed UTF-8 to UTF-16: the host converts back only what it has converted itself.
- Win32 process launch, job objects, watchdogs, named-pipe time-outs, RPC mapping and the user interface: library calls and field copying.
- ImportAccounting.ImportTotals.ApplyArchive: does not model the progress that an archive run reports itself while it works, because those reports scale a nested count.
