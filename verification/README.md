# Bitween payroll: verified core

This project models the algorithms and state of the Bitween payroll platform that carry its
promises, and proves those promises with Dafny. `dafny verify dfyconfig.toml` checks all of it.

| file | what it models |
|---|---|
| `WorkflowOrder.dfy`, `WorkflowTemplate.dfy`, `CanvasOrder.dfy` | the operational order of an edited workflow: Kahn's algorithm with a canvas-ordered ready list and a tail for cycles, on steps placed by their template |
| `RateLimiter.dfy`, `RateRejections.dfy`, `RateClients.dfy` | the fixed-window request limiter and its size-triggered sweep, what a rejection leaves behind, and whose requests are counted together |
| `Base64Url.dfy` | the session verifier's base64url decoder on a wrapping 32-bit word, and its encoder |
| `ZipArchive.dfy`, `ZipRoundTrip.dfy`, `ZipSamples.dfy` | the ZIP directory reader, the member reader and the extraction budget, the archives they read back, and the samples they return |
| `XmlEntities.dfy` | the five global replacements that decode XML entities |
| `SheetCsv.dfy`, `SheetSamples.dfy` | cleaning, choosing and printing the rows of a workbook sheet |
| `JsonDocument.dfy`, `AuthPolicy.dfy`, `PolicyLoading.dfy`, `PolicyWriting.dfy`, `PolicyRoles.dfy`, `PolicyEntries.dfy`, `BuiltinMatrix.dfy` | the authorization policy, its built-in matrix, its validating loader, and documents written out for it |
| `Authorization.dfy`, `PayrollLifecycle.dfy` | the evaluator, the policy in force, and the workflow state over whole runs |
| `Rounding.dfy`, `HoursRounding.dfy` | the crate's two tie rounders and the rounding of hours |
| `Attendance.dfy`, `AttendanceTotals.dfy`, `AttendanceSums.dfy` | grouping attendance records into invoice rows |
| `FixedHours.dfy`, `FixedHoursRuns.dfy` | contractual fixed hours put over an invoice |
| `PayrollAge.dfy`, `AgeTexts.dfy` | age at the end of a payroll period, and the employment-insurance decision that rests on it |
| `Text.dfy`, `Options.dfy`, `Numbers.dfy`, `Orders.dfy` | white space, text order, optional values, bounds on numbers, and strict orders |

Loops and objects that the sources update step by step are methods and classes here, each
proved against a function of its inputs or its old state; the promises are lemmas about those
functions. Some promises do not hold as one would like, and are stated with their exact condition:

- A fixed-hours profile may change when it is normalized again, namely when the hours it gives
  round to zero (`NormalizedIdempotent`, `ReapplyingTheReturned`, `ReturnedProfileDiffers`).
- By a six-digit identity one may grow younger, namely when the two-digit pivot passes the year of
  birth within a century (`SixDigitsFallExactly`, `SixDigitsCanFall`).
- A rejected request may move a later reset time, namely when it opened its bucket under a limit of
  zero or less (`ResetMovesIff`, `ResetCanMove`).
- In a window of zero or less a bucket bounds nothing and the remaining count is too low, unless
  the limit lets nothing through anyway (`BucketBound`, `RemainingIsTruthful`).
- Different clients may share a bucket, namely when address and route split the same text at
  different colons; requests for a path from an address without a slash never do (`KeysCollideIff`,
  `ArrivalsApart`).
- An empty deflated table that meets the extraction budget exactly used up is passed over
  (`ExtractionRoundTrip`).
- The listing of a workflow template shows in the order where steps have no vertical position of
  their own (`ListingMattersIff`, `ListingCanMatter`).

The limiter's windows are fixed, not sliding: an arbitrary interval of one window length admits up
to `2 * limit - 1` requests (`IntervalBound`, `IntervalBoundIsSharp`). The workbook decoder and the
escaping of the preview are independent of each other; `DecodeUndoesEscapeText` compares them.

## Model

| member | source | states |
|---|---|---|
| `WorkflowOrder.CountIncoming` | apps/bitween-platform-ui/preview/app.js:935-942 | each step's count is the number of edge occurrences into it; edges to unknown ids are ignored, repeated edges count as often as they occur |
| `WorkflowOrder.Release` | apps/bitween-platform-ui/preview/app.js:956-963 | taking a step keeps the two loop invariants: the counts are the edges from unseen steps, and the ready list is exactly the unseen steps whose count is zero, in canvas order |
| `WorkflowOrder.TakeReady` | apps/bitween-platform-ui/preview/app.js:950-964 | the main loop ends, and leaves a schedule: at each turn the first ready step on the canvas, until none is ready |
| `WorkflowOrder.OperationalSteps` | apps/bitween-platform-ui/preview/app.js:930-970 | the result is such a schedule followed by the steps it never reaches, in canvas order; without steps it is the fallback |
| `WorkflowOrder.SortAscending` | apps/bitween-platform-ui/preview/app.js:924-928 | sorting steps with distinct ids by the visual comparator gives a strictly ascending list |
| `WorkflowOrder.OrderIsPermutation` | apps/bitween-platform-ui/preview/app.js:944-969 | on every graph the result is a permutation of the steps |
| `WorkflowOrder.EdgesPointForward` | apps/bitween-platform-ui/preview/app.js:950-964 | every edge into a scheduled step comes from a step scheduled earlier, so none leads from the tail back into the schedule |
| `WorkflowOrder.ScheduleIsLeast` | apps/bitween-platform-ui/preview/app.js:924-964 | among all orders that respect the edges the schedule is the longest and the lexicographically least |
| `WorkflowOrder.NeverReadyBehindCycle` | apps/bitween-platform-ui/preview/app.js:966-969 | a step that never becomes ready lies on or behind a cycle |
| `WorkflowOrder.ScheduledNotBehindCycle` | apps/bitween-platform-ui/preview/app.js:950-964 | no scheduled step lies on or behind a cycle |
| `WorkflowOrder.TailIsBehindCycles` | apps/bitween-platform-ui/preview/app.js:950-969 | the tail is exactly the steps on or behind a cycle, the schedule exactly the others |
| `WorkflowOrder.TailIffCycle` | apps/bitween-platform-ui/preview/app.js:966-969 | there is a tail if and only if the graph has a cycle |
| `WorkflowOrder.AcyclicOrder` | apps/bitween-platform-ui/preview/app.js:930-970 | without cycles: a permutation, a topological order, and the lexicographically least one of all |
| `WorkflowOrder.StepsFixTheOrder` | apps/bitween-platform-ui/preview/app.js:930-970 | once the steps have their positions, the order depends on the set of them alone |
| `WorkflowTemplate.ListingMattersIff` | apps/bitween-platform-ui/preview/app.js:1991-2018 | two listings of the same template steps are shown alike, positions included, if and only if every shown step without a vertical position of its own, or with zero for one, stands at the same place in both |
| `WorkflowTemplate.ListedOrderStays` | apps/bitween-platform-ui/preview/app.js:2013-2018 | a template without vertical positions whose edges all lead down its list is shown exactly as it is listed |
| `WorkflowTemplate.ListingCanMatter` | apps/bitween-platform-ui/preview/app.js:2013-2018 | of two unconnected steps without vertical positions the one listed first is shown first |
| `CanvasOrder.ReadyReadsDown` | apps/bitween-platform-ui/preview/app.js:924-964 | of two scheduled steps of which the later was ready when the earlier was taken, the earlier stands higher, in the same row further left, at the same place has the smaller id |
| `CanvasOrder.TailReadsDown` | apps/bitween-platform-ui/preview/app.js:924-970 | the steps on and behind cycles follow from top to bottom, in a row from left to right, and then by id |
| `CanvasOrder.UnconnectedReadsDown` | apps/bitween-platform-ui/preview/app.js:924-970 | without edges the whole result is in that order |
| `CanvasOrder.TemplateReadsDown` | apps/bitween-platform-ui/preview/app.js:1991-2018 | of a template without edges a step is shown before another that stands lower, or further right in its row, where a step without a position of its own stands ten lower for every place in the list, in the column of its lane |
| `CanvasOrder.ShownExactly` | apps/bitween-platform-ui/preview/app.js:1991-2018 | exactly the enabled steps with an id are shown, with their edges |
| `RateLimiter.Limiter.Enforce` | apps/bitween-platform-ui/preview/server.js:691-718 | the whole new table and the verdict, in terms of the old table: charge, headers, rejection before the sweep, sweep above 10,000 buckets |
| `RateLimiter.Limiter.DeleteExpired` | apps/bitween-platform-ui/preview/server.js:713-717 | exactly the buckets that expired are deleted |
| `RateLimiter.KeyTellsPolicy` | apps/bitween-platform-ui/preview/server.js:686-689 | whatever address and route contain, equal keys mean equal policies and limits |
| `RateClients.KeyTellsAddress` | apps/bitween-platform-ui/preview/server.js:686-689 | on one route of one policy different addresses have different keys |
| `RateClients.KeyTellsRoute` | apps/bitween-platform-ui/preview/server.js:686-689 | one address has different keys on different routes |
| `RateClients.KeysCollideIff` | apps/bitween-platform-ui/preview/server.js:686-689 | two requests share a key if and only if their policies agree and their addresses and routes agree, or split the same text at different colons |
| `RateClients.ArrivalsApart` | apps/bitween-platform-ui/preview/server.js:686-695 | requests whose route is a path and whose address has no slash share a key exactly when policy, address and route agree |
| `RateClients.ClientsAreApart` | apps/bitween-platform-ui/preview/server.js:691-712 | leaving all requests of other addresses on a route out of a run changes no verdict on the client of that route |
| `RateClients.StrangersDoNotMatter` | apps/bitween-platform-ui/preview/server.js:691-712 | and in runs of requests as they arrive it changes no verdict on any request that stays |
| `RateClients.FirstOfClient` | apps/bitween-platform-ui/preview/server.js:676-712 | the first request of a client on a route: admitted exactly if the limit of its policy is positive, one of that limit used, and the reset in the first full second at which the window has passed |
| `RateClients.SweepsAboveTenThousand` | apps/bitween-platform-ui/preview/server.js:713-717 | an admitted request leaves at most 10,000 buckets or live ones only; up to 10,000, and after a rejection, nothing is swept away |
| `RateLimiter.TablesAgree` | apps/bitween-platform-ui/preview/server.js:691-718 | the swept table differs from one that never deletes only in expired buckets |
| `RateLimiter.SweepIsInvisible` | apps/bitween-platform-ui/preview/server.js:713-717 | over every run the limiter gives the same verdict, remaining count and reset time as one that never deletes a bucket |
| `RateLimiter.SameAdmissions` | apps/bitween-platform-ui/preview/server.js:713-717 | and it admits the same requests of every key in every interval |
| `RateLimiter.BucketBound` | apps/bitween-platform-ui/preview/server.js:698-712 | over every run a key gets at most its limit through since its bucket opened, if and only if the window is positive or the limit is not |
| `RateLimiter.IntervalBound` | apps/bitween-platform-ui/preview/server.js:691-712 | over every run, every interval of one window length admits at most 2 * limit - 1 requests of a key, at most limit if the window is a single millisecond, and none for a limit of zero or less |
| `RateLimiter.IntervalBoundIsSharp` | apps/bitween-platform-ui/preview/server.js:691-712 | a run that attains this bound, for every positive limit and every window of at least a millisecond |
| `RateLimiter.RemainingIsTruthful` | apps/bitween-platform-ui/preview/server.js:704-712 | the remaining count keeps its word, that repeating the last request at once gets through exactly as often as reported, if and only if the window is positive or the limit is not |
| `RateRejections.RejectionLeavesNoTrace` | apps/bitween-platform-ui/preview/server.js:708-712 | under every limit, removing a rejected request from a run changes neither admission nor remaining count of any later request, and no reset time if it met a live bucket, as it does under every positive limit |
| `RateRejections.ResetMovesIff` | apps/bitween-platform-ui/preview/server.js:698-712 | the reset header of no later response tells whether a rejected request was made, if and only if that request met a live bucket or the window is at most a millisecond; otherwise, which takes a limit of zero or less, some continuation shows another second |
| `RateRejections.ResetCanMove` | apps/bitween-platform-ui/preview/server.js:698-712 | with a limit of zero and a window of a second, a request half a second after a rejected one is told second 1, and second 2 without it |
| `Base64Url.Decode` | crates/payroll-api/src/auth_session.rs:663-690 | equals reading the text as one long binary number: refused outside the alphabet, with padding, or with left-over bits that are not zero |
| `Base64Url.Encode` | crates/payroll-api/src/auth_session.rs:744-774 | equals writing the bytes as one long binary number, filled up with zero bits |
| `Base64Url.ShiftIn` | crates/payroll-api/src/auth_session.rs:672-680 | what the wrapping 32-bit shift loses has already been written out |
| `Base64Url.TakeByte` | crates/payroll-api/src/auth_session.rs:681-685 | taking the high byte keeps the stream value |
| `Base64Url.DecodeEncode` | crates/payroll-api/src/auth_session.rs:663-690 | decoding undoes encoding on all byte sequences |
| `Base64Url.EncodeDecode` | crates/payroll-api/src/auth_session.rs:744-774 | encoding undoes decoding on an accepted text if and only if its length is not 1 modulo 4 |
| `Base64Url.AcceptedIffEncoding` | crates/payroll-api/src/auth_session.rs:663-690 | the accepted texts of the other lengths are exactly the encodings (RFC 4648 sections 3.2, 3.5 and 5) |
| `Base64Url.StrayCharacter` | crates/payroll-api/src/auth_session.rs:663-690 | a text of length 1 modulo 4 is accepted exactly when it is an accepted text followed by 'A', and decodes like that text |
| `Base64Url.AlphabetValues` | crates/payroll-api/src/auth_session.rs:663-690 | a character is read for its place in the alphabet of section 5 of RFC 4648, and no other is read |
| `Base64Url.AlphabetSpelled` | crates/payroll-api/src/auth_session.rs:663-690 | that alphabet, spelled out |
| `ZipArchive.FindEndRecord` | apps/bitween-platform-ui/preview/server.js:1250-1257 | returns the last searched position that holds the end-of-directory signature, and -1 exactly when none does, in bounds for every buffer |
| `ZipArchive.ReadDirectory` | apps/bitween-platform-ui/preview/server.js:1261-1286 | the scan stays in bounds, ends, and builds a map in insertion order: every name once, under it the last record that bears it |
| `ZipArchive.ZipEntries` | apps/bitween-platform-ui/preview/server.js:1248-1288 | the listing and the claimed entry count, for every byte buffer |
| `ZipArchive.ExtractSamples` | apps/bitween-platform-ui/preview/server.js:1067-1103 | too many claimed entries are refused; otherwise the samples of exactly the members the budget lets through |
| `ZipArchive.SampleMembers` | apps/bitween-platform-ui/preview/server.js:1078-1102 | the extraction loop, with its running total and its early end |
| `ZipArchive.LookupPut` | apps/bitween-platform-ui/preview/server.js:1274-1284 | setting an entry changes the map at its name only |
| `ZipArchive.PutKeepsDistinct` | apps/bitween-platform-ui/preview/server.js:1274-1284 | setting an entry keeps the names of the map distinct and adds at most its own |
| `ZipArchive.ScanKeepsLast` | apps/bitween-platform-ui/preview/server.js:1261-1286 | on every buffer, what the scan leaves under a name is the last record with that name, or what stood there before |
| `ZipArchive.ExtractionBudget` | apps/bitween-platform-ui/preview/server.js:1077-1095 | whatever sizes the directory claims, the extracted bytes never exceed the total budget |
| `ZipArchive.ExtractedIsGenuine` | apps/bitween-platform-ui/preview/server.js:1078-1094 | every extracted member is a listed, acceptable entry read from the archive, of at most the member limit |
| `ZipRoundTrip.ScanReadsAll` | apps/bitween-platform-ui/preview/server.js:1261-1286 | directory records with distinct names that stand one after the other are all read, in order |
| `ZipRoundTrip.EndFound` | apps/bitween-platform-ui/preview/server.js:1250-1257 | the backward search finds a final end record, comment and all, if and only if no later position that leaves room for one holds the signature |
| `ZipRoundTrip.ListingRoundTrip` | apps/bitween-platform-ui/preview/server.js:1248-1288 | the listing of an archive laid out as in sections 4.3.7, 4.3.12 and 4.3.16 of APPNOTE.TXT, with a comment that does not look like an end record, names exactly its files |
| `ZipRoundTrip.MemberRoundTrip` | apps/bitween-platform-ui/preview/server.js:1290-1311 | every file of such an archive is found under its own name, and what was packed into it, stored or deflated, is read back if and only if it fits the limit, which for inflating must not be zero |
| `ZipRoundTrip.ExtractsAll` | apps/bitween-platform-ui/preview/server.js:1078-1102 | acceptable members are all extracted, in order, if and only if they fit the budget together and no deflated one, though empty, comes when it is used up |
| `ZipRoundTrip.ExtractionRoundTrip` | apps/bitween-platform-ui/preview/server.js:1067-1103 | the tables of such an archive, stored or deflated, come out as they were packed, under the same condition |
| `ZipSamples.Signatures` | apps/bitween-platform-ui/preview/server.js:1250-1262 | the records of a written archive start with the bytes 50 4b and 03 04, 01 02 or 05 06 |
| `ZipSamples.TooManyIff` | apps/bitween-platform-ui/preview/server.js:1067-1074 | an archive is refused for its entries if and only if the last end record in reach of the search claims more than 512 |
| `ZipSamples.SamplesOfArchive` | apps/bitween-platform-ui/preview/server.js:1067-1103 | for an archive whose wanted files fit 16 MB the extraction returns, in their order, the sample under its safe name of exactly the files with a safe name, no final slash, even flags, another file type than a symbolic link, and at most 8 MB, whose sampled text is not blank |
| `XmlEntities.OneMoreEntity` | apps/bitween-platform-ui/preview/server.js:1345-1352 | one more global replacement after a pass over some entities is a pass over one entity more |
| `XmlEntities.ReplaceEachIsOnePass` | apps/bitween-platform-ui/preview/server.js:1345-1352 | replacing entity after entity is a single pass, for every table in which no replacement makes a later reference |
| `XmlEntities.XmlDecodeIsOnePass` | apps/bitween-platform-ui/preview/server.js:1345-1352 | the five replacements equal one left-to-right decode of the predefined entities of section 4.6 of XML 1.0, on every string |
| `XmlEntities.FiveReferences` | apps/bitween-platform-ui/preview/server.js:1345-1352 | what stands for each of the five references, spelled out, in front of any text |
| `XmlEntities.OtherTextStays` | apps/bitween-platform-ui/preview/server.js:1345-1352 | every other character is copied |
| `XmlEntities.DecodeUndoesEscape` | apps/bitween-platform-ui/preview/server.js:1345-1352 | decoding undoes escaping with the predefined entities, on every string |
| `XmlEntities.DecodeUndoesEscapeText` | apps/bitween-platform-ui/preview/app.js:1014-1022 | decoding undoes the preview's own escaping if and only if the text has no apostrophe, which that escaping writes as a number |
| `SheetCsv.CleanIsTidy` | apps/bitween-platform-ui/preview/server.js:1244-1246 | cleaned text is words separated by single blanks |
| `SheetCsv.CleanKeepsTidy` | apps/bitween-platform-ui/preview/server.js:1244-1246 | cleaning leaves such text alone |
| `SheetSamples.CleanKeepsWords` | apps/bitween-platform-ui/preview/server.js:1244-1246 | cleaning changes no word of a text: it gives the one text with single blanks that has the same words |
| `SheetSamples.RowCells` | apps/bitween-platform-ui/preview/server.js:1212-1217 | a row ends with its last cell that has a word, and after 80 cells, and holds the cleaned cells |
| `SheetCsv.ParsePrint` | apps/bitween-platform-ui/preview/server.js:1157-1157 | parsing printed rows by section 2 of RFC 4180 gives the rows back, up to one last row of one empty cell |
| `SheetCsv.ParsePrintIff` | apps/bitween-platform-ui/preview/server.js:1354-1357 | exactly which rows survive printing and parsing |
| `SheetSamples.PrintedAsIs` | apps/bitween-platform-ui/preview/server.js:1354-1357 | exactly the cells without a quote, a comma or a line break are printed as they are |
| `SheetSamples.LinesJoined` | apps/bitween-platform-ui/preview/server.js:1157-1157 | lines are joined by single line breaks, and nothing follows the last |
| `SheetCsv.NormalizedIsPrintable` | apps/bitween-platform-ui/preview/server.js:1212-1217 | a normalized row with text has no line break and is not a lone empty cell |
| `SheetCsv.SamplesReadBack` | apps/bitween-platform-ui/preview/server.js:1200-1207 | every sample of a scoring header row and its data rows is read back as it was |
| `SheetCsv.BestSheetSample` | apps/bitween-platform-ui/preview/server.js:1192-1210 | the sample of the first row with the highest positive score, and printing it as CSV loses nothing |
| `SheetSamples.DataRowsSnoc` | apps/bitween-platform-ui/preview/server.js:1198-1203 | of the rows below a header exactly those are kept, in order, of which one of the first 80 cells has a word |
| `SheetSamples.BestSample` | apps/bitween-platform-ui/preview/server.js:1192-1210 | for the first of the 40 rows with the highest positive score: that row, cleaned, and the kept ones of the next 2000 |
| `SheetSamples.NoSample` | apps/bitween-platform-ui/preview/server.js:1192-1210 | where no score is positive there is no sample |
| `SheetSamples.ScoreOf` | apps/bitween-platform-ui/preview/server.js:1219-1221 | a row is rated by its cells with text, and only if there are two of them |
| `JsonDocument.Guard` | crates/payroll-api/src/auth_policy.rs:843-924 | accepts a document if and only if no object at any depth repeats a key (RFC 8259 section 4), and else names a repeated key |
| `JsonDocument.CollapseKeepsAll` | crates/payroll-api/src/auth_policy.rs:484-499 | last-wins parsing loses nothing of a document if and only if the guard accepts it |
| `JsonDocument.LastWins` | crates/payroll-api/src/auth_policy.rs:484-499 | of an object with repeated keys exactly the last member of each key is kept |
| `AuthPolicy.ReadTable` | crates/payroll-api/src/auth_policy.rs:660-742 | the insertion loop of the operation and role tables, or its failure, is the table of the members |
| `AuthPolicy.FromJson` | crates/payroll-api/src/auth_policy.rs:484-522 | guard, then policy id, operations and roles: the loaded policy or a refusal |
| `PolicyLoading.TableSpec` | crates/payroll-api/src/auth_policy.rs:744-836 | a table is read exactly when every member is acceptable and no two keys fold onto one, and then holds every member: no alias overwrites another |
| `PolicyLoading.OrderDoesNotMatter` | crates/payroll-api/src/auth_policy.rs:660-836 | reordering the members of any object changes neither acceptance nor the loaded policy |
| `PolicyRoles.PolicyReads` | crates/payroll-api/src/auth_policy.rs:484-522 | a policy document with an id, operations and roles is loaded exactly when the id is not blank, both tables can be read and there is a role, and then under the trimmed id |
| `PolicyRoles.LoadedRoles` | crates/payroll-api/src/auth_policy.rs:744-836 | for every loaded policy: its roles are those of the document under their canonical names, each permits exactly the operations of which its entry lists the id or the wildcard, and its ceiling is the class the entry names |
| `PolicyRoles.RoleReads` | crates/payroll-api/src/auth_policy.rs:744-836 | a written role is read back as it was, if and only if its ceiling lets every grant of it be exercised |
| `PolicyRoles.ExercisableMeans` | crates/payroll-api/src/auth_policy.rs:780-818 | a grant can be exercised under a ceiling exactly when no operation it covers, one or all, requires a higher class, by its entry or else built in |
| `PolicyRoles.FoldedChar` | crates/payroll-api/src/auth_policy.rs:364-366 | folding a name turns upper case into lower case and dashes into underscores, and nothing else |
| `PolicyEntries.EntryMeans` | crates/payroll-api/src/auth_policy.rs:660-742 | exactly which entries are accepted for an operation, and as what: its level and class named, its workplace flag a boolean, its window absent, null or a list of state names other than the fail-closed one |
| `PolicyEntries.RoleAccepted` | crates/payroll-api/src/auth_policy.rs:744-836 | exactly which entries are accepted for a role: a named ceiling and a list of grants, each of them the wildcard or the id of an operation and exercisable under that ceiling |
| `PolicyEntries.DocumentNeeds` | crates/payroll-api/src/auth_policy.rs:500-522 | a loaded document has a text for its id, which is not blank and whose trimmed form the policy bears, and objects for operations and roles, the latter not empty |
| `PolicyLoading.RoleAliasesRefused` | crates/payroll-api/src/auth_policy.rs:744-836 | a document in which two role keys are spellings or aliases of one role is refused |
| `PolicyLoading.OperationSpelling` | crates/payroll-api/src/auth_policy.rs:660-680 | a key names an operation exactly when it is its id up to case, dashes and outer blanks, so no two operations share a spelling |
| `PolicyLoading.OperationSpellingsRefused` | crates/payroll-api/src/auth_policy.rs:660-680 | a document in which two keys spell one operation is refused |
| `PolicyLoading.UnknownOperationRefused` | crates/payroll-api/src/auth_policy.rs:660-672 | a document with a key that spells no operation is refused |
| `PolicyLoading.GrantsExercisable` | crates/payroll-api/src/auth_policy.rs:774-820 | every grant of a loaded role, the wildcard included, passed the ceiling check |
| `PolicyLoading.LoadedWithinCeilings` | crates/payroll-api/src/auth_policy.rs:774-836 | no grant of a loaded policy exceeds the data-class ceiling of its role |
| `PolicyLoading.LoadedNeverInconsistent` | crates/payroll-api/src/auth_policy.rs:314-362 | no policy document can open a window on the fail-closed state: the state parser of the program has no word for it |
| `PolicyLoading.BuiltinWithinCeilings` | crates/payroll-api/src/auth_policy.rs:546-658 | nor does a grant of the built-in matrix exceed its ceiling |
| `PolicyLoading.BuiltinNeverInconsistent` | crates/payroll-api/src/auth_policy.rs:207-248 | nor is a built-in window open on the fail-closed state |
| `BuiltinMatrix.BuiltinGrants` | crates/payroll-api/src/auth_policy.rs:546-658 | the built-in roles that may do each operation |
| `BuiltinMatrix.BuiltinCeilings` | crates/payroll-api/src/auth_policy.rs:546-658 | the built-in roles of each ceiling |
| `BuiltinMatrix.BuiltinLevels` | crates/payroll-api/src/auth_policy.rs:139-158 | the built-in operations of each authentication level |
| `BuiltinMatrix.BuiltinClasses` | crates/payroll-api/src/auth_policy.rs:160-179 | the built-in operations of each data class |
| `BuiltinMatrix.BuiltinScopes` | crates/payroll-api/src/auth_policy.rs:181-202 | the built-in operations that are bound to a workplace |
| `BuiltinMatrix.BuiltinWindows` | crates/payroll-api/src/auth_policy.rs:207-248 | the operations with a window that each workflow state leaves open |
| `BuiltinMatrix.RoleSpellings` | crates/payroll-api/src/auth_policy.rs:364-377 | the spellings of each canonical role |
| `BuiltinMatrix.OperationIds` | crates/payroll-api/src/auth_policy.rs:93-114 | the id of each operation |
| `Authorization.DataDeniedIffExceeded` | crates/payroll-api/src/auth_policy.rs:1005-1040 | exactly the policies with a trimmed id and a reachable grant beyond its ceiling can deny for the data class |
| `Authorization.AccessorsAgree` | crates/payroll-api/src/auth_policy.rs:1078-1101 | the four accessors of an operation, each with a fallback of its own, fall back to one and the same built-in entry |
| `Authorization.OmissionLoadsAlike` | crates/payroll-api/src/auth_policy.rs:744-836 | over every list of role members, the loader reads the same role table, or refuses, with and without the omitted entries |
| `PolicyWriting.EntryReads` | crates/payroll-api/src/auth_policy.rs:660-742 | an entry written with the names the program gives to levels, classes and states is read back as it was, if and only if its window leaves out the fail-closed state |
| `PolicyWriting.CompletedReads` | crates/payroll-api/src/auth_policy.rs:660-742 | operations completed by a written built-in entry for each one omitted are read exactly when the given ones are, as the same table filled up |
| `PolicyWriting.OmissionMeansBuiltin` | crates/payroll-api/src/auth_policy.rs:466-543 | for every document: writing the built-in entry of every omitted operation into it keeps it accepted or refused, its id and its roles, and every session decision |
| `Authorization.FromEnv` | crates/payroll-api/src/auth_policy.rs:466-482 | the policy it returns keeps its grants within their ceilings and its windows shut on the fail-closed state, and has the id of the document where one is configured: an invalid one is never replaced |
| `Authorization.SessionsFailClosed` | crates/payroll-api/src/platform_view.rs:435-448 | whatever the environment holds, under the vocabulary of the program: never a data-class denial, an inconsistent deployment gets only operations without a window, an invalid policy allows nothing, and no decision names a role outside the policy |
| `Authorization.SessionAllowedIff` | crates/payroll-api/src/platform_view.rs:435-448 | an operation is allowed if and only if a policy is in force, the policy id is its id, the level is at or above the required one in the order of the levels, the role named holds the operation or the wildcard, tenant, legal entity and, where required, workplace are the same and not blank, and the state is in the window; each reason of a refusal says exactly which of these was the first to fail |
| `Authorization.OtherPlacesRefused` | crates/payroll-api/src/auth_policy.rs:1058-1076 | what a session is allowed is refused for its scope in any other tenant, legal entity and, where required, workplace |
| `Authorization.DecisionTells` | crates/payroll-api/src/auth_policy.rs:1005-1056 | a decision tells the level and class the operation requires, by its entry or else the built-in one, and the role of the session if and only if the policy has it |
| `Authorization.NormalizeRoleIdempotent` | crates/payroll-api/src/auth_policy.rs:364-377 | folding role aliases twice is folding them once |
| `PayrollLifecycle.StateCountsStages` | crates/payroll-api/src/platform_view.rs:479-513 | the state is inconsistent if and only if a stage is skipped, and otherwise says how many of the five stages are reached |
| `PayrollLifecycle.NeverBackwards` | crates/payroll-api/src/platform_view.rs:479-513 | over every run in which flags are only turned on, consistent states never move backwards |
| `PayrollLifecycle.GrantedInWindow` | crates/payroll-api/src/auth_policy.rs:1085-1110 | over every run, an operation with a window was granted in a consistent state of that window |
| `PayrollLifecycle.GrantsMoveForward` | crates/payroll-api/src/platform_view.rs:479-513 | between any two granted operations with windows a run only moves forwards, each within its own window |
| `PayrollLifecycle.StatesOfGrants` | crates/payroll-api/src/platform_view.rs:435-513 | whatever policy the environment holds, two granted operations whose built-in windows it does not widen were granted in states of those windows, the later not before the earlier |
| `PayrollLifecycle.RulesFrozenAfterPayrollRun` | crates/payroll-api/src/platform_view.rs:435-513 | under the policy in force of every environment that widens neither window: after a granted payroll run, policy and template changes are granted in Approved or Archived only |
| `PayrollLifecycle.NothingChangesAfterExport` | crates/payroll-api/src/platform_view.rs:435-513 | likewise: after a granted export no payroll run, signature or workflow step is granted again |
| `PayrollLifecycle.RunAfterSigning` | crates/payroll-api/src/platform_view.rs:435-513 | likewise: a payroll run granted after a granted signature happens while both are in Calculated |
| `PayrollLifecycle.OmittedIsNotWidened` | crates/payroll-api/src/auth_policy.rs:466-482 | no window is widened where no document is configured, or where it omits the operation |
| `PayrollLifecycle.RunThenChange` | crates/payroll-api/src/platform_view.rs:435-513 | a run under the built-in policy in which a payroll run is granted in Calculated and then a policy change in Approved |
| `PayrollLifecycle.OrderlyRun` | crates/payroll-api/src/platform_view.rs:479-513 | turning the stages on one after the other passes through every state in order |
| `Rounding.NearestEvenUnique` | crates/payroll-api/src/attendance.rs:267-279 | half to even is one function: at most one integer is nearest in that sense |
| `Rounding.RoundTiesExact` | crates/payroll-api/src/attendance.rs:267-279 | the rounder with tolerance f64::EPSILON misses half to even if and only if the argument is within the tolerance of a tie and the nearest integer is odd |
| `Rounding.RoundWonExact` | crates/payroll-api/src/deductions.rs:174-186 | the same for the rounder with tolerance 1e-9, which falls back to rounding half away from zero |
| `Rounding.TolerancesAboveHalf` | crates/payroll-api/src/attendance.rs:267-279 | just above a half the even neighbour is taken up to 2^-52 by the one rounder, and below 10^-9 by the other |
| `Rounding.HalvesAway` | crates/payroll-api/src/deductions.rs:174-186 | off the ties the second rounder rounds as the platform does, which takes halves away from zero |
| `Rounding.RoundersAgree` | crates/payroll-api/src/earnings.rs:312-324 | the two rounders disagree exactly between their tolerances, next to an odd integer |
| `Rounding.RoundTiesOnFractions` | crates/payroll-api/src/attendance.rs:267-279 | exact on every fraction with a denominator up to 2^51 |
| `Rounding.TiesLimitIsSharp` | crates/payroll-api/src/attendance.rs:267-279 | and not on one with denominator 2^51 + 1 |
| `Rounding.RoundWonOnFractions` | crates/payroll-api/src/deductions.rs:174-186 | exact on every fraction with a denominator up to 500,000,000 |
| `Rounding.WonLimitIsSharp` | crates/payroll-api/src/deductions.rs:174-186 | and not on one with denominator 500,000,001 |
| `Rounding.BothExactOnFractions` | crates/payroll-api/src/earnings.rs:312-324 | on fractions with denominators up to 10^8, negative ones included, both are half to even and so agree |
| `Rounding.RoundTiesMonotone` | crates/payroll-api/src/attendance.rs:267-279 | monotone on all reals, near ties included |
| `Rounding.RoundWonMonotone` | crates/payroll-api/src/deductions.rs:174-186 | monotone on all reals, near ties included |
| `Rounding.RoundersAreOdd` | crates/payroll-api/src/attendance.rs:267-279 | rounding the negative is the negative of rounding, for both |
| `HoursRounding.RoundHoursError` | crates/payroll-api/src/attendance.rs:253-265 | positive hours move by at most half a rounding unit and 0.00005 |
| `HoursRounding.RoundHoursIsHalfEven` | crates/payroll-api/src/attendance.rs:253-265 | hours that are a fraction of the unit with a denominator up to 2^51 go to the nearest number of units, from the middle to the even one, given in hours to four places, again half to even |
| `HoursRounding.RoundHoursMonotone` | crates/payroll-api/src/attendance.rs:253-265 | never negative, and more hours are never rounded to fewer |
| `HoursRounding.RoundHoursIdempotent` | crates/payroll-api/src/attendance.rs:253-265 | rounded hours stay as they are when rounded again |
| `Attendance.AddRecord` | crates/payroll-api/src/attendance.rs:158-173 | the field-by-field accumulation adds the record's share, hours within a grace period counting nothing |
| `Attendance.GroupRecords` | crates/payroll-api/src/attendance.rs:140-174 | one pass over the records gives one group per non-empty key: the first record's texts and the sum of the shares |
| `Attendance.SortByName` | crates/payroll-api/src/attendance.rs:181-181 | a stable sort by name |
| `Attendance.Aggregate` | crates/payroll-api/src/attendance.rs:130-183 | one row per key, in the order of names and then keys, rounded from its group |
| `AttendanceTotals.SharesConserved` | crates/payroll-api/src/attendance.rs:141-174 | the employees' totals add up to the shares of the records with a key: nothing lost, nothing twice |
| `AttendanceTotals.DaysConserved` | crates/payroll-api/src/attendance.rs:171-173 | attendance days sum to the number of records with a key; leave and unpaid days are conserved |
| `AttendanceTotals.ReportedHours` | crates/payroll-api/src/attendance.rs:201-242 | every rounded total is within half a unit and 0.00005 of the exact sum, and zero for a sum that is not positive |
| `AttendanceSums.RowSums` | crates/payroll-api/src/attendance.rs:130-251 | every number of a row from the fields of the employee's records: hours summed and rounded together, lateness and early leave beyond their grace periods in one number, days as they are, with minutes held in 1 to 60 and grace in 0 to 240 |
| `AttendanceSums.RowTexts` | crates/payroll-api/src/attendance.rs:146-156 | the texts of a row are those of the first record with its key, with the workplace of the import where that names none |
| `AttendanceSums.KeyMeans` | crates/payroll-api/src/attendance.rs:244-251 | records are of one employee by a key that is not blank, and otherwise by the name without its white space |
| `AttendanceSums.RowsAscend` | crates/payroll-api/src/attendance.rs:175-183 | rows come by name and then key, by code points, a beginning before the longer text |
| `AttendanceTotals.LeadIsFirst` | crates/payroll-api/src/attendance.rs:146-156 | a group takes its name, department and workplace from the first record with its key |
| `AttendanceTotals.TotalsIgnoreOrder` | crates/payroll-api/src/attendance.rs:158-173 | keyed totals are the same for every permutation of the records |
| `AttendanceTotals.RowsIgnoreOrder` | crates/payroll-api/src/attendance.rs:130-183 | where an employee's records agree on the texts, the rows are the same for every permutation, in the same order |
| `FixedHours.Invoice.constructor` | crates/payroll-api/src/fixed_hours.rs:213-255 | a new invoice keeps nothing aside |
| `FixedHours.Invoice.Preserve` | crates/payroll-api/src/fixed_hours.rs:389-405 | sets the saved hours that are not set, and nothing else |
| `FixedHours.Invoice.Apply` | crates/payroll-api/src/fixed_hours.rs:265-327 | the whole invoice after a profile, in place, with the profile returned and the flags raised |
| `FixedHours.Invoice.AuditFlags` | crates/payroll-api/src/fixed_hours.rs:329-387 | the flags, in order, with the numbers they show |
| `FixedHoursRuns.RunOutcome` | crates/payroll-api/src/fixed_hours.rs:265-327 | what any sequence of profiles leaves, told from the original invoice: terms of the last active profile, overtime and special hours of the last that has any |
| `FixedHoursRuns.OriginalsKept` | crates/payroll-api/src/fixed_hours.rs:389-405 | over any sequence the saved hours are those of the original invoice |
| `FixedHoursRuns.ReferenceHoursStay` | crates/payroll-api/src/fixed_hours.rs:291-297 | an invoice paid by its own hours is paid by the original ones after any sequence |
| `FixedHoursRuns.ReapplyingChangesNothing` | crates/payroll-api/src/fixed_hours.rs:265-327 | applying a profile and workplace again changes nothing and raises the same flags |
| `FixedHoursRuns.FlagsCompareOriginals` | crates/payroll-api/src/fixed_hours.rs:353-384 | the flags compare the contract with the original invoice, not with hours an earlier profile put there |
| `FixedHoursRuns.FlagsTell` | crates/payroll-api/src/fixed_hours.rs:329-387 | which differences an active profile raises: overtime against extension and special hours against overtime beyond 0.01, monthly hours beyond five percent, each with its two numbers |
| `FixedHoursRuns.FlagsBegin` | crates/payroll-api/src/fixed_hours.rs:329-352 | the flags begin with where the hours come from and for which jobs, and with how they are paid |
| `FixedHoursRuns.HoursFound` | crates/payroll-api/src/fixed_hours.rs:96-121 | without monthly hours a profile stands for 26 days of its daily ones, and without either for 209 |
| `FixedHoursRuns.NormalizedIdempotent` | crates/payroll-api/src/fixed_hours.rs:96-121 | normalizing is idempotent if and only if the hours given, monthly or found from the daily ones, are more than the 0.00005 that rounds to zero |
| `FixedHoursRuns.NormalizedTwice` | crates/payroll-api/src/fixed_hours.rs:96-121 | a second normalization is the last that changes anything |
| `FixedHoursRuns.ReapplyingTheReturned` | crates/payroll-api/src/fixed_hours.rs:285-297 | applying the returned profile raises the same flags, and changes nothing more exactly when the profile is inactive, its monthly hours as given do not round to zero, its daily ones do, or the invoice is paid by its own hours |
| `FixedHoursRuns.ReturnedProfileDiffers` | crates/payroll-api/src/fixed_hours.rs:96-121 | a profile whose second normalization finds other monthly hours |
| `PayrollAge.BirthIsFixed` | crates/payroll-api/src/employment_insurance_65.rs:319-349 | with at least seven digits the birth date does not depend on the period |
| `PayrollAge.CenturyDigit` | crates/payroll-api/src/employment_insurance_65.rs:319-349 | the century follows from the seventh digit by arithmetic, and year, month and day are the digits before it |
| `PayrollAge.PeriodReads` | crates/payroll-api/src/employment_insurance_65.rs:305-317 | a period written as two decimal numbers ends on the last day of that month, or is refused |
| `AgeTexts.PeriodMeans` | crates/payroll-api/src/employment_insurance_65.rs:305-317 | exactly which texts are periods: white space aside a year, a dash and a month from 1 to 12, in decimal digits with or without a plus sign |
| `AgeTexts.BirthMeans` | crates/payroll-api/src/employment_insurance_65.rs:319-349 | exactly which identities tell a date of birth, and which: six digits and more that are a date in the century of the seventh digit, or of the pivot where there is none |
| `AgeTexts.MonthLength` | crates/payroll-api/src/employment_insurance_65.rs:364-378 | months are as long as the Gregorian calendar counts days from the first of one to the first of the next |
| `PayrollAge.AgeInMonths` | crates/payroll-api/src/employment_insurance_65.rs:356-362 | age at a month end is whole years of months, with one exception: a leap-day birth at the end of a short February |
| `PayrollAge.DayDoesNotMatter` | crates/payroll-api/src/employment_insurance_65.rs:356-376 | the day of birth within its month changes the age if and only if one of the two is 29 February and the period a common-year February |
| `PayrollAge.AYearLater` | crates/payroll-api/src/employment_insurance_65.rs:356-376 | a year later the age is one more, except from or to a leap-year February for a leap-day birth |
| `PayrollAge.ExemptFrom` | crates/payroll-api/src/employment_insurance_65.rs:280-303 | 65 is reached in the month of the 65th birthday, by those born on a leap day one month later |
| `PayrollAge.AgeNeverFallsOverPeriods` | crates/payroll-api/src/employment_insurance_65.rs:280-376 | with a century digit age never falls over later periods, and once 65 always 65 |
| `PayrollAge.SixDigitsFallExactly` | crates/payroll-api/src/employment_insurance_65.rs:351-354 | with six digits age falls between two periods exactly when the pivot passes the year of birth and fewer than a hundred years of life lie between them: fewer than a hundred calendar years, and not ninety-nine with a birthday more |
| `PayrollAge.SixDigitsCanFall` | crates/payroll-api/src/employment_insurance_65.rs:351-354 | by the identity 600101 someone is 99 in December 2059 and 0 in January 2060 |
| `PayrollAge.OnceSparedAlwaysSpared` | crates/payroll-api/src/employment_insurance_65.rs:234-278 | with a century digit, an employee once spared the deduction is spared in every later period of the same record |
| `AgeTexts.AnswersMean` | crates/payroll-api/src/employment_insurance_65.rs:234-278 | each answer with what it takes: exempt are those of 65 with a record and no premium, unknown those of 65 without a record, and only these two can be spared |
| `AgeTexts.NumberMeans` | crates/payroll-api/src/employment_insurance_65.rs:234-278 | whose management number is carried: the record's, or else the site's, and none under 65 |

## Left out

- Floating point: hours, amounts and tolerances are exact reals. Integers too large for a fraction, and the saturating cast they would meet in the rounders, are not modelled.
- The lane of a workflow step is given by where its column stands. Workflow step ids are taken to be distinct, as the template store keeps them; the text comparison behind the canvas order is any order in which only equal ids compare equal.
- The clock of the limiter is the arrival time in a request and does not run backwards in a run; recognizing limited routes and rendering headers and errors are not modelled. Window and limits are whole numbers, zero and negative ones included; an environment value that is fractional or no number is not modelled.
- UTF-8 decoding, inflating, the safe form of a member name with its accepted extensions, and the text sampled from a member are parameters of the ZIP reader; inflating is only known to fail or to respect its limit, and to refuse a limit of zero. A workbook opened while sampling is not counted against the budget by the source, nor here.
- The alias, text and number counts of the header rating are a parameter; parsing workbook XML into rows is not modelled.
- JSON text becomes a tree outside the model, and a refusal of the loader carries no message.
- Operation ids in a loaded policy are folded onto the closed set of operations, and accepted workflow states onto the states, where the source keeps their strings.
- Session checks before authorization (token, expiry, authenticator) are not modelled; a request carries the derived authentication level.
- The workstream and readiness views of the platform are screens over the same flags and are not modelled.
- BTreeMap is a map together with its keys in order; fields of an attendance row that are always zero or empty are dropped.
- Audit flags are values with the numbers they show; their wording and number format are not modelled.
- Simplified income tax, net pay, earnings and overlap premiums: only the rounders they share are modelled; the table and its continuation are not monotone by design.
- The warning text of the employment-insurance decision is not modelled.
- HTTP routing, uploads, signing, database contracts, user interface and process handling are not part of this model.
