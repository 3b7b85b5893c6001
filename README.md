# Avalanche, modelled in Dafny

Avalanche backs up the pictures of a Lightroom catalog to Amazon Glacier
cold storage. A run validates its configuration, lists the catalog's
pictures, keeps those that are in a library and not yet archived, uploads
each one as a zip holding the picture and its JSON description, and records
every archive in a SQLite ledger (the "Avalanche DB") so that later runs
skip it. The repository holds three revisions of the same engine: the
first command-line program (`Avalanche/`), the `core/` revision with a
sequential runner and a test mode, and the `src/` revision whose runner
asserts the vault once and lets three workers drain a shared queue.

This project models that engine:

- `Models.dfy` (module `Models`): the picture, the archive record, their
  pairing, and the run result.
- `Text.dfy` (`Text`): `IsNullOrWhiteSpace`, `Trim`, ASCII
  case-insensitive comparison, and UTF-16LE encoding with its decoder.
- `Eligibility.dfy` (`Eligibility`): the filter of which pictures a run
  uploads. It groups by FileId, keeps a positive library count, and drops
  files the ledger already lists.
- `Retry.dfy` (`Retry`): the three-try loop around `SaveImage`. The
  gateway is a `SaveOracle`, which answers the k-th call of a run with
  `Saved(archive)`, `ReturnedNull` or `Threw`. The runners pair the
  archive with the picture being saved, as `SaveImage` does.
- `Ledger.dfy` (`State`): the ledger as a class holding its three tables,
  for all three revisions, including the newest revision's test mode.
- `Archive.dfy` (`Archive`): the upload archive, meaning its entry names,
  their contents and the stream position. It covers both ways the
  revisions build it.
- `Gateway.dfy` (`Glacier`): vault-name validation, `AssertVaultExists`,
  and one upload with its hash, rewind and progress reports.
- `Progress.dfy` (`Progress`): the console progress throttle.
- `Config.dfy` (`Config`): configuration validation and region lookup.
- `Runner.dfy` (`Runner`): the sequential runner of `core/` and the
  queue-and-workers runner of `src/`.
- `Program.dfy` (`LegacyProgram`): the backup loop of the first
  revision's `Main`.

The remote side is made of parameters. The catalog is the list of its
pictures. `SaveImage` is the oracle. Files on disk, the compressor, JSON
serialisation, the tree hash and the service's answers are a `Services`
value. `File.Exists` and the region list are parameters of the validation.

Where the newer revisions' runners call the ledger, the model uses the
newest ledger revision (`State.Ledger.MarkFileAsArchived`). The first
program uses the older insert as written
(`State.Ledger.MarkFileAsArchivedUnboundVault`). Its driver,
System.Data.SQLite, binds `$vaultid` to `$vaultId` ignoring case, so the
row is written. "Findings" describes the same insert in the class that
uses Microsoft.Data.Sqlite.

## Model

| member | source | states |
|---|---|---|
| Models.NewRunResult | src/Avalanche/Runner/AvalancheRunResult.cs:9-10 | a new run result starts with empty success and failure lists |
| Text.TrimEmptyIffWhiteSpace | core/src/Avalanche/Glacier/IGlacierGateway.cs:172-181 | trimming leaves nothing exactly when the text is all white space |
| Text.TrimIdempotent | core/src/Avalanche/Glacier/GlacierGateway.cs:85-94 | trimming a trimmed text changes nothing |
| Text.TrimSlice | core/src/Avalanche/Glacier/GlacierGateway.cs:85-94 | the trimmed text is a contiguous slice of the input that neither starts nor ends with white space |
| Text.Utf16LeRoundTrip | core/src/Avalanche/Glacier/IArchiveProvider.cs:54 | decoding the UTF-16LE bytes of a string gives the string back |
| Text.Utf16LeLength | core/src/Avalanche/Glacier/IArchiveProvider.cs:54 | a string of characters below U+10000 encodes to two bytes per character |
| Eligibility.KeepEligible | core/src/Avalanche/Runner/IAvalancheRunner.cs:48-49 | the kept pictures are a subsequence of the input, and each picture is kept as often as it occurs exactly when it has a positive library count and its FileId is not archived |
| Eligibility.FirstPerFileIdAfterIds | src/Avalanche/Runner/IAvalancheRunner.cs:65-66 | grouping keeps exactly the FileIds of the catalog that are not yet seen |
| Eligibility.FirstPerFileIdAfterDistinct | src/Avalanche/Runner/IAvalancheRunner.cs:65-66 | after grouping, no two pictures share a FileId |
| Eligibility.FirstPerFileIdAfterOrder | src/Avalanche/Runner/IAvalancheRunner.cs:65-66 | grouping keeps catalog order |
| Eligibility.FirstPerFileIdAfterFirst | src/Avalanche/Runner/IAvalancheRunner.cs:65-66 | each kept picture is the first one in the catalog with its FileId |
| Eligibility.ToArchiveSpec | src/Avalanche/Runner/IAvalancheRunner.cs:62-69 | the to-do list has distinct FileIds and is in catalog order; each entry is the first picture of its FileId and is eligible; every FileId whose first picture is eligible is on it |
| Eligibility.FirstPerFileIdOfDistinct | core/src/Avalanche/Runner/IAvalancheRunner.cs:45-47 | grouping a catalog whose FileIds are already distinct changes nothing |
| Eligibility.DuplicateKeptWithoutGrouping | Avalanche/Program.cs:55-56 | without grouping, an eligible picture listed twice stays on the to-do list twice |
| Eligibility.GroupedListsOnce | src/Avalanche/Runner/IAvalancheRunner.cs:62-69 | with grouping, no picture is on the to-do list more than once |
| Retry.RetryFromSpec | src/Avalanche/Runner/IAvalancheRunner.cs:122-135 | the loop makes at least one call; every call but the last threw; the last one did not throw unless the tries ran out; the picture gets an archive exactly when the last call saved it, and then that archive |
| Retry.RetrySucceedsIff | core/src/Avalanche/Runner/IAvalancheRunner.cs:61-74 | a picture is archived exactly when one of its three tries saves it and every earlier try threw |
| Retry.FailFailSucceed | src/Avalanche/Runner/IAvalancheRunner.cs:123-135 | two throws and then a save archive the picture in three calls |
| Retry.GivesUpAfterThree | src/Avalanche/Runner/IAvalancheRunner.cs:22 | three throws give up after exactly three calls with no archive |
| Retry.FirstTrySaves | src/Avalanche/Runner/IAvalancheRunner.cs:127-128 | a first try that saves is the only call |
| Retry.NullIsNotRetried | src/Avalanche/Runner/IAvalancheRunner.cs:127-128 | a null answer ends the loop after one call, with no archive |
| Retry.SaveWithRetry | Avalanche/Program.cs:66-79 | the `for` loop with `try`/`break` makes the calls and keeps the archive that the three-try specification prescribes |
| State.CountPositiveIff | core/src/Avalanche/State/IAvalancheRepository.cs:244-262 | the count of rows with a FileId is positive exactly when some row records that FileId |
| State.AddVaultRow | core/src/Avalanche/State/IAvalancheRepository.cs:164-181 | a vault inserted under the next AUTOINCREMENT value gets a positive identity that no vault has, and the identities stay distinct and bounded by the counter |
| State.AddCatalogRow | core/src/Avalanche/State/IAvalancheRepository.cs:224-241 | the same for a catalog |
| State.Ledger.constructor | core/src/Avalanche/State/IAvalancheRepository.cs:40-47 | the newest revision on a new state file creates the tables outside test mode and none in test mode; all tables are empty |
| State.Ledger.Reopen | core/src/Avalanche/State/IAvalancheRepository.cs:111-122 | reopening an existing file keeps its rows and adds the tables if missing, except in test mode |
| State.Ledger.Legacy | core/src/Avalanche/Repository/AvalancheRepository.cs:38-43 | the older revisions create the file and the tables only when no file exists, and otherwise keep the file as it is |
| State.Ledger.AssertDatabaseExists | core/src/Avalanche/State/IAvalancheRepository.cs:111-122 | outside test mode the tables exist afterwards; no row changes |
| State.Ledger.CreateDatabaseIfMissing | Avalanche/Avalanche/Repository/AvalancheRepository.cs:42-111 | the tables are created when the file is missing, and an existing file is left alone, even one without tables |
| State.Ledger.FileIsArchived | core/src/Avalanche/State/IAvalancheRepository.cs:253-262 | true exactly when some Pictures row has the FileId; fails when there is no table; changes nothing |
| State.Ledger.GetOrCreateVaultId | core/src/Avalanche/State/IAvalancheRepository.cs:133-150 | a known name returns its identity and changes nothing, whatever the region; an unknown name is inserted with a fresh positive identity (-1 and no write in test mode); afterwards the name resolves to the returned identity |
| State.Ledger.CreateVault | core/src/Avalanche/State/IAvalancheRepository.cs:164-181 | test mode returns -1 and writes nothing; otherwise one row with a new positive identity |
| State.Ledger.GetOrCreateCatalogId | core/src/Avalanche/State/IAvalancheRepository.cs:193-210 | the same as for vaults, keyed on the unique id only |
| State.Ledger.CreateCatalog | core/src/Avalanche/State/IAvalancheRepository.cs:224-241 | test mode returns -1 and writes nothing; otherwise one row with a new positive identity |
| State.Ledger.MarkFileAsArchived | core/src/Avalanche/State/IAvalancheRepository.cs:297-326 | test mode touches nothing. Otherwise the vault and the catalog are resolved, or created, with every existing row kept. Exactly one Pictures row is appended, pointing at both. The archived FileIds then include the picture's |
| State.Ledger.InsertPicture | core/src/Avalanche/State/IAvalancheRepository.cs:264-295 | one row appended; FileId is not unique, so marking a file twice adds a second row |
| State.Ledger.MarkFileAsArchivedUnboundVault | core/src/Avalanche/Repository/AvalancheRepository.cs:242-295 | the older insert as written: vault and catalog are resolved; the row is added only if the driver matches parameter names ignoring case, otherwise the insert is rejected and no row is added |
| State.UnboundVaultIdRejectsInsert | core/src/Avalanche/Repository/AvalancheRepository.cs:268-281 | on a driver that matches parameter names exactly, recording a picture fails at the insert after the vault row was written, and the file is still not reported as archived |
| State.BoundVaultIdKeepsRecord | core/src/Avalanche/State/IAvalancheRepository.cs:297-326 | the newest revision reports the same file as archived |
| State.LookupsAreStable | core/src/Avalanche/State/IAvalancheRepository.cs:133-150 | asking twice for one vault gives one positive identity, and another vault gets a different one |
| State.TestModeWritesNothing | core/src/Avalanche/State/IAvalancheRepository.cs:297-302 | in test mode creates return -1 and a marked file is not reported as archived |
| State.RowModels | core/src/Avalanche/State/IAvalancheRepository.cs:264-295 | each Pictures row carries the picture and the archive that were recorded |
| State.ExtendsTransitive | core/src/Avalanche/Runner/IAvalancheRunner.cs:83 | recording one list of archives and then another records both, in order |
| State.ExtendsArchivedIds | core/src/Avalanche/State/IAvalancheRepository.cs:244-262 | after recording, the ledger reports exactly the old FileIds plus those of the recorded archives |
| Archive.FileNameOnly | core/src/Avalanche/Glacier/IArchiveProvider.cs:33 | the file name is a separator-free suffix of the path, preceded by a separator when it is not the whole path |
| Archive.FileNameOfCombine | src/Avalanche/Runner/IAvalancheRunner.cs:117 | the file name of `Combine(directory, name)` is `name` |
| Archive.MetadataEntryName | core/src/Avalanche/Glacier/IArchiveProvider.cs:47-51 | the metadata entry never takes the picture's name, and keeps "metadata.txt" when the picture is called otherwise |
| Archive.ArchiveEntriesKeepBoth | core/src/Avalanche/Glacier/IArchiveProvider.cs:39-57 | two entries with distinct names, the picture first with its bytes unchanged, then the description, which decodes back to the metadata text |
| Archive.MemoryStream.ReadToEnd | core/src/Avalanche/Glacier/IGlacierGateway.cs:95 | reading returns the rest of the data and leaves the position at the end |
| Archive.MemoryStream.Seek | core/src/Avalanche/Glacier/IGlacierGateway.cs:96 | the data is unchanged and the position is the one asked for |
| Archive.ArchiveBytes | core/src/Avalanche/Glacier/IArchiveProvider.cs:29-66 | the archive fails exactly when the picture's file is missing |
| Archive.GetFileStream | core/src/Avalanche/Glacier/IArchiveProvider.cs:29-66 | a missing file fails; otherwise a new stream at position 0 holding the compressed two entries |
| Archive.DictSetTwo | core/src/Avalanche/Glacier/GlacierGateway.cs:162-173 | setting two different keys keeps both in order; setting one key twice keeps only the second value |
| Archive.DictionaryArchiveBytes | core/src/Avalanche/Glacier/GlacierGateway.cs:151-195 | without compression the bytes are the file as read; with compression they are the same archive as the newest revision's |
| Archive.GetFileStreamFromDictionary | Avalanche/Glacier/GlacierGateway.cs:151-193 | a missing file fails; otherwise a new stream at position 0, raw or compressed as asked |
| Archive.CreateEntries | core/src/Avalanche/Glacier/GlacierGateway.cs:179-189 | the loop counterpart of the `foreach`: the compressor receives exactly the dictionary's items, each key as an entry name with its bytes, in enumeration order |
| Glacier.GetTrimmedVaultName | core/src/Avalanche/Glacier/IGlacierGateway.cs:172-181 | fails exactly on null or white-space names; otherwise a non-empty slice of the name with no white space at either end |
| Glacier.TrimmedNameIsStable | Avalanche/Glacier/GlacierGateway.cs:43-79 | validating an already trimmed name again gives the same name |
| Glacier.Paired | core/src/Avalanche/Glacier/IGlacierGateway.cs:79-87 | `SaveImage` hands back the picture it was given, paired with the archive |
| Glacier.ArchiveOf | core/src/Avalanche/Glacier/IGlacierGateway.cs:101-109 | the archive record carries the response's archive id, location and status, and the time of the call |
| Glacier.GlacierGateway.AssertVaultExists | core/src/Avalanche/Glacier/IGlacierGateway.cs:50-77 | an invalid name fails before any request. A listed name, or test mode, sends one list request and creates nothing. Otherwise exactly one create is sent, with the trimmed name, and the vault then exists |
| Glacier.GlacierGateway.Effect | core/src/Avalanche/Glacier/IGlacierGateway.cs:89-140 | one save sends at most one upload, whose checksum is the tree hash of its body; it reports progress exactly when the file could be read, starting with 0 |
| Glacier.GlacierGateway.SaveImage | core/src/Avalanche/Glacier/IGlacierGateway.cs:79-87 | the result and the new state are those of one save of the picture's archive |
| Glacier.GlacierGateway.SaveFileWithMetadata | core/src/Avalanche/Glacier/IGlacierGateway.cs:89-112 | the same for a file and its description |
| Glacier.GlacierGateway.SaveImageFromDictionary | core/src/Avalanche/Glacier/GlacierGateway.cs:100-108 | the older revisions' save, with the raw or compressed stream |
| Glacier.GlacierGateway.SaveFile | core/src/Avalanche/Glacier/GlacierGateway.cs:110-148 | the older revisions' save of a file, with the raw or compressed stream |
| Glacier.GlacierGateway.HashAndUpload | core/src/Avalanche/Glacier/IGlacierGateway.cs:93-110 | the stream is hashed, rewound to 0, progress 0 is reported, and then the whole stream is uploaded |
| Glacier.GlacierGateway.DoGlacierUpload | core/src/Avalanche/Glacier/IGlacierGateway.cs:114-140 | test mode sends nothing and returns an empty response. Otherwise an invalid vault name fails before sending. Otherwise exactly one upload is sent, of the rest of the stream with its hash, to the trimmed vault, and every reported percentage goes to the progress reporter |
| Glacier.AssertTwiceCreatesOnce | core/src/Avalanche/Glacier/IGlacierGateway.cs:50-77 | asserting a new vault twice creates it once (never in test mode), and the second assertion only lists |
| Glacier.TestModeSendsNothing | core/src/Avalanche/Glacier/IGlacierGateway.cs:116-120 | in test mode a save sends no request, and succeeds exactly when the file can be read |
| Glacier.UploadCarriesBodyAndHash | core/src/Avalanche/Glacier/IGlacierGateway.cs:114-140 | outside test mode a readable file with a valid vault name is sent as one upload of exactly its bytes with their tree hash, and the save succeeds exactly when the service answers |
| Glacier.InvalidSaveSendsNothing | core/src/Avalanche/Glacier/IGlacierGateway.cs:89-99 | a missing file, or an invalid vault name outside test mode, sends nothing and fails |
| Glacier.EffectReports | core/src/Avalanche/Glacier/IGlacierGateway.cs:98-133 | a save reports 0 and then the service's progress, in order |
| Glacier.OneSavePrintsAtMostElevenLines | src/Avalanche/Glacier/IConsolePercentUpdater.cs:21-31 | one save from a fresh reporter prints at most eleven lines, starting with 0% when the file is readable |
| Progress.Bucket | src/Avalanche/Glacier/IConsolePercentUpdater.cs:24 | the bucket is a multiple of ten, rounded toward zero as C#'s integer division does, so negative percentages round up |
| Progress.BucketMonotone | src/Avalanche/Glacier/IConsolePercentUpdater.cs:24 | a larger percentage never gets a smaller bucket |
| Progress.ConsolePercentUpdater.constructor | src/Avalanche/Glacier/IConsolePercentUpdater.cs:18 | the last printed amount starts at -1 and nothing is printed |
| Progress.ConsolePercentUpdater.UpdatePercentage | src/Avalanche/Glacier/IConsolePercentUpdater.cs:21-31 | the stored amount becomes the call's bucket; one line is printed exactly when that bucket differs from the stored one |
| Progress.ConsolePercentUpdater.ReportAll | src/Avalanche/Glacier/IConsolePercentUpdater.cs:21-31 | a series of calls prints exactly the lines the throttle specification gives |
| Progress.PrintedAppend | src/Avalanche/Glacier/IConsolePercentUpdater.cs:25-31 | what two series of calls print is what the first prints followed by what the second prints from the first one's last amount |
| Progress.FirstUpdatePrints | src/Avalanche/Glacier/IConsolePercentUpdater.cs:18-28 | the first call always prints, because -1 is never a bucket |
| Progress.RepeatIsSilent | src/Avalanche/Glacier/IConsolePercentUpdater.cs:25-28 | repeating a call prints nothing the second time |
| Progress.SharedAcrossFiles | src/Avalanche/Glacier/IConsolePercentUpdater.cs:21-31 | the stored amount ignores the file, so another file in the same bucket prints nothing |
| Progress.PrintedEndsAtLast | src/Avalanche/Glacier/IConsolePercentUpdater.cs:24-31 | after any calls, the stored amount is the last call's bucket, and the last printed line shows it |
| Progress.PrintedRises | src/Avalanche/Glacier/IConsolePercentUpdater.cs:24-31 | for non-decreasing percentages the printed amounts strictly rise |
| Progress.AtMostElevenLines | src/Avalanche/Glacier/IConsolePercentUpdater.cs:24-31 | non-decreasing percentages from 0 to 100 print at most eleven lines |
| Progress.UploadPrintsAtMostEleven | core/src/Avalanche/Glacier/IGlacierGateway.cs:98-133 | an upload's 0% report followed by its progress prints at most eleven lines, the first being 0% |
| Config.FindRegion | Avalanche/ExecutionParameters.cs:126-136 | no region exactly when no listed region matches the name ignoring case; otherwise a listed region whose name matches |
| Config.GetRegion | core/src/Avalanche/ExecutionParameters.cs:66-76 | the search loop returns the first matching region of the list, or none |
| Config.GlacierErrors | Avalanche/ExecutionParameters.cs:138-162 | each cold-storage message is present exactly when its setting is missing. The unparsable-region message needs a region that is set but unknown. Nothing else is reported |
| Config.GlacierErrorsOrdered | core/src/Avalanche/ExecutionParameters.cs:78-102 | the messages come in the order access key, secret, region, vault; at most one of the two region messages; at most four |
| Config.AvalancheErrors | Avalanche/ExecutionParameters.cs:170-185 | "catalog required" exactly when the path is unset, "not found" exactly when it is set but missing, "ledger required" exactly when that path is unset; at most two; none exactly when both paths are usable |
| Config.DedupPrefix | core/src/Avalanche/ExecutionParameters.cs:18 | deduplication keeps first occurrences in order: deduplicating a prefix gives a prefix of the result, and every message after it is new |
| Config.DedupDistinct | core/src/Avalanche/ExecutionParameters.cs:18 | `Union` leaves a list without repeats as it is |
| Config.Union | core/src/Avalanche/ExecutionParameters.cs:18 | the union has no repeats and holds exactly the messages of either list. It starts with the first list's messages, deduplicated, and no message of the first list comes after one that only the second has. Two lists without repeats between or within them are simply concatenated |
| Config.MessagesDistinct | Avalanche/ExecutionParameters.cs:109-112 | no message repeats, within the cold-storage messages, within the catalog and ledger messages, or between the two |
| Config.ValidationErrors | Avalanche/ExecutionParameters.cs:109-112 | the messages are the cold-storage messages in checking order followed by the catalog and ledger messages; they are distinct, and there are none exactly when every setting is present and valid |
| Config.AtMostSixErrors | Avalanche/ExecutionParameters.cs:138-185 | never more than six messages |
| Config.EmptyGlacierParameters | Avalanche/ExecutionParameters.cs:138-162 | unset cold-storage settings give their four messages, in checking order |
| Config.EmptyConfigurationGetsSixErrors | core/src/Avalanche/ExecutionParameters.cs:16-19 | an empty configuration gives all six "required" messages, the cold-storage ones first |
| Runner.KeepEligibleSnoc | core/src/Avalanche/Runner/IAvalancheRunner.cs:48-49 | filtering one more picture appends it exactly when it is eligible |
| Runner.KeptSoFarIsKeepEligible | core/src/Avalanche/Runner/IAvalancheRunner.cs:48-50 | the filter built picture by picture equals the filter's specification |
| Runner.KeepUnarchived | core/src/Avalanche/Runner/IAvalancheRunner.cs:48-50 | the filter fails, with the missing-table error, exactly when there are no tables and some picture is in a library; otherwise it keeps the eligible pictures, judged against the ledger as it was |
| Runner.BuildToDo | src/Avalanche/Runner/IAvalancheRunner.cs:62-69 | the to-do list is the grouped and filtered catalog, materialised before any upload, or the missing-table error |
| Runner.PairWith | core/src/Avalanche/Glacier/IGlacierGateway.cs:79-87 | an upload record comes back paired with the very picture that was saved |
| Runner.ArchivePicture | src/Avalanche/Runner/IAvalancheRunner.cs:115-146 | the tries are those of the three-try loop; the record pairs the archive with the picture being archived; the ledger gains exactly one row for it when there is one, and none otherwise |
| Runner.SequentialAccounts | core/src/Avalanche/Runner/IAvalancheRunner.cs:55-85 | every picture of the to-do list ends in exactly one of successes and failures; one record per success, the i-th record being the i-th success's own; at most three calls per picture |
| Runner.SequentialKeepsOrder | core/src/Avalanche/Runner/IAvalancheRunner.cs:55-85 | successes and failures each keep the order of the to-do list |
| Runner.EveryCallThrows | core/src/Avalanche/Runner/IAvalancheRunner.cs:76-81 | when every call throws, every picture fails after three calls and nothing is recorded |
| Runner.SavedArchives | core/src/Avalanche/Runner/IAvalancheRunner.cs:61-74 | the answers of the first calls, in call order, each paired with the picture of the same position |
| Runner.EveryCallSaves | core/src/Avalanche/Runner/IAvalancheRunner.cs:83-84 | when every call saves, every picture succeeds with one call, and the records are the answers in order, each with its own picture |
| Runner.SuccessesArchived | core/src/Avalanche/Runner/IAvalancheRunner.cs:48-49 | outside test mode, recording each success with its own archive leaves the ledger reporting every success as archived, so the next run's filter skips it, and nothing reported before is lost |
| Runner.ArchiveNext | core/src/Avalanche/Runner/IAvalancheRunner.cs:55-85 | one turn of the `foreach` advances the run by one picture of the specification and records what it archived |
| Runner.ArchiveInOrder | core/src/Avalanche/Runner/IAvalancheRunner.cs:54-85 | the `foreach` gives the sequential specification's successes, failures, calls and records, and the ledger gains exactly those records in order |
| Runner.RunSequential | core/src/Avalanche/Runner/IAvalancheRunner.cs:39-89 | the sequential `Run`. It fails before any upload only when the ledger has no tables. Otherwise it is the sequential specification applied to the to-do list built from the ledger as it was, and the ledger gains that run's records. Outside test mode every success is then reported as archived. It never asserts the vault |
| Runner.HeldUpdate | src/Avalanche/Runner/IAvalancheRunner.cs:103-112 | changing one worker's phase changes the pictures in flight by exactly what it held and now holds |
| Runner.InFlightBound | src/Avalanche/Runner/IAvalancheRunner.cs:91-92 | no more pictures are in flight than there are workers |
| Runner.NoneHeld | src/Avalanche/Runner/IAvalancheRunner.cs:103-112 | when no worker holds a picture, none is in flight |
| Runner.RunState.constructor | src/Avalanche/Runner/IAvalancheRunner.cs:80-87 | the run state starts with the whole queue, index 0, the queue's length, an empty result and no calls |
| Runner.RunState.TryDequeue | src/Avalanche/Runner/IAvalancheRunner.cs:106 | an empty queue gives nothing; otherwise the head, removed from the queue |
| Runner.TakeNext | src/Avalanche/Runner/IAvalancheRunner.cs:105-109 | the worker returns exactly when the queue was emptied since its test; otherwise it holds the head picture, which leaves the queue but stays accounted for |
| Runner.RunState.ArchiveDequeued | src/Avalanche/Runner/IAvalancheRunner.cs:115-146 | the index advances by one; the tries are those of the three-try loop; the picture is appended to successes, after its record, pairing it with its archive, is written, or to failures |
| Runner.ArchiveHeld | src/Avalanche/Runner/IAvalancheRunner.cs:111 | the held picture is returned to the run's accounts as a success or a failure, with the queue unchanged |
| Runner.Advance | src/Avalanche/Runner/IAvalancheRunner.cs:103-112 | one atomic step of one worker keeps every picture accounted for (queued, held or finished), finishes only with an empty queue, and reduces the measure |
| Runner.StepKeepsAccounts | src/Avalanche/Runner/IAvalancheRunner.cs:91-112 | any worker's step keeps the total of queued, held and finished pictures, and workers are done only when the queue is empty |
| Runner.DrainQueue | src/Avalanche/Runner/IAvalancheRunner.cs:91-93 | the three workers, interleaved in any order, empty the queue and finish every picture exactly once |
| Runner.Run | src/Avalanche/Runner/IAvalancheRunner.cs:56-97 | the vault is asserted first and a failed assertion stops the run. Otherwise successes and failures are, as a multiset, exactly the grouped and filtered to-do list. There are at most three calls per picture and one record per success, its own, and the ledger gains exactly those records. Outside test mode every success is then reported as archived |
| LegacyProgram.LegacyToDo | Avalanche/Program.cs:56 | the to-do list holds only eligible pictures of the catalog, with no grouping |
| LegacyProgram.RecordArchive | Avalanche/Program.cs:86 | each success is recorded exactly once in the ledger |
| LegacyProgram.BackUpNext | Avalanche/Program.cs:61-87 | one turn of the loop advances the run by one picture and records its archive, if any |
| LegacyProgram.BackUpAll | Avalanche/Program.cs:60-87 | the loop is the sequential specification on the to-do list, and the ledger gains its records in order; failed pictures are skipped with no record |
| LegacyProgram.BackUp | Avalanche/Program.cs:37-87 | a configuration with errors stops with exactly those errors, before any upload or ledger access. Otherwise the run is the sequential specification on the ungrouped to-do list, and every picture it uploaded is then reported as archived |
| LegacyProgram.FilterKeepsBoth | Avalanche/Program.cs:56 | two eligible pictures both stay on the to-do list |
| LegacyProgram.GroupingKeepsFirst | src/Avalanche/Runner/IAvalancheRunner.cs:65-66 | grouping two pictures with one FileId keeps the first |
| LegacyProgram.DuplicateUploadedTwice | Avalanche/Program.cs:55-87 | a FileId listed twice is uploaded and recorded twice by the first program, each copy with its own answer, and once by the newer runners |

## Left out

- Real threads. The three workers are modelled as a nondeterministic interleaving of atomic steps: dequeue one picture, or archive the held picture. The non-atomic `++state.Index` and the unsynchronised `List.Add` calls on the shared result are not modelled.
- SQLite itself. SQL text, connections, commands and `LAST_INSERT_ROWID` are left out. The tables are maps and a sequence, and each identity comes from an AUTOINCREMENT counter. Picture row identities are never read, so they are not kept.
- Reading a ledger file that has no tables fails in the model with a missing-table error. In the source that is an exception from SQLite.
- `State.Ledger.MarkFileAsArchived`: the model has no failing insert. So the runners' property that a picture whose record throws is not counted a success holds only trivially.
- The AWS client, the tree hash, zip compression, JSON serialisation and the clock are parameters (`Services`, `now`). The upload's progress events are the service's answer.
- Vault inventory retrieval (`BeginVaultInventoryRetrieval`, `PickupVaultInventoryRetrieval`) is download-side I/O and is not modelled.
- Logging is not modelled, including the compression-ratio line, which uses floating point.
- `Runner.Run` takes the outcome of the vault assertion as a boolean. `Glacier.GlacierGateway.AssertVaultExists` is modelled and proved on its own.
- The Lightroom readers are not part of this model. The catalog is the list of its pictures and the catalog id is a string.
- Command-line and configuration plumbing are not part of this model: `Initialize`, `GetParametersFromArgs`, `ResolveConfigFileLocation`, configuration loading, dependency injection, `Insomniac`, `Extensions`, and the other `Program.cs` files.
- `LegacyProgram.BackUp` starts after parameters are loaded. `Environment.Exit(0)` becomes the `ConfigurationRejected` exit, and the final `Console.Read()` is left out.
- `Avalanche/GlacierUploader.cs` and `Avalanche/Glacier/ConsolePercentUpdater.cs` work through background threads and are not part of this model.
- The two `core/` progress reporters have no logic (one does nothing, the other always prints) and are not part of this model.
- Case-insensitive region matching folds ASCII letters only. The two revisions' culture rules (invariant culture and current culture) are not told apart.
- One test in the repository expects `GetRegion` to throw for an unknown region. Both revisions of the code return null, and the model follows the code.
- The `core/` run result leaves its two lists null, so that runner's first `Add` would throw. The model gives every runner the initialised lists of the `src/` revision.
- Identities are unbounded integers. The source's `(int)(long)` cast of row identities would only matter past 2^31 rows.
- `Runner.Run`: the result lists of the queue runner are stated as a multiset, not in order, because their order depends on the interleaving of the workers.
- `State.Ledger.MarkFileAsArchivedUnboundVault`: the driver's parameter lookup is a parameter, `namesIgnoreCase`, not a model of the driver. The first program's class uses System.Data.SQLite and is modelled with `true`. The class in `core/src/Avalanche/Repository` uses Microsoft.Data.Sqlite and corresponds to `false`. None of the runners modelled here uses that class.

## Findings

| source | as written | input that shows it | evidently intended | confidence | as-written member | corrected member |
|---|---|---|---|---|---|---|
| core/src/Avalanche/Repository/AvalancheRepository.cs:268-281 | the INSERT names the parameter `$vaultId` but binds `$vaultid`. Microsoft.Data.Sqlite, which this class uses, matches parameter names exactly, so `$vaultId` stays unbound and the insert is rejected. The System.Data.SQLite class of the first program (Avalanche/Avalanche/Repository/AvalancheRepository.cs:269-282) has the same text but matches names ignoring case, so it is not affected | any picture recorded through this class on a ledger with tables: `MarkFileAsArchived` writes the vault and catalog rows, then throws at the insert, and `FileIsArchived` stays false. None of the runners modelled here uses this class: the `core/` runner uses the `Avalanche.State` repository | bind `$vaultId`, as core/src/Avalanche/State/IAvalancheRepository.cs:312 does, so that the row is written | medium for the unbound parameter, not executed. The `Version=3` keyword of its connection string (:31) may be refused by this driver before any insert is reached | State.UnboundVaultIdRejectsInsert | State.BoundVaultIdKeepsRecord |
