# kshare: the store protocol, verified

kshare keeps every upload in two places that cannot be changed together: a row of a SQLite table and a file
`<slug><ext>` in one directory. Upload, replace, delete and the expiry sweep each walk through a short sequence of
storage calls; any call can fail, the process can die between any two of them, and readers and other handlers run
in between. Three boot passes repair what is left. This project models that protocol, and the parsers and name
rules it rests on, in Dafny 4.11, and proves what it keeps and where it does not keep it.

`dafny verify dfyconfig.toml` checks everything.

## How the pieces fit

| file | what it models |
|---|---|
| `Common.dfy`, `Names.dfy` | slugs, extensions, scratch names; the base64url bijection; why the name spaces are disjoint |
| `Table.dfy` | the upload table and the directory as values |
| `Booting.dfy` | the three boot passes as functions of the store, under sets of failing calls |
| `Machine.dfy` | the concurrent protocol: a thread per handler, sweep or reader, one storage call per step, the outcome chosen by the environment; `Crash` drops all threads; `Repair` is one removal of a boot pass |
| `Safety.dfy` | the invariant of every interleaving; where the bytes at a slug-shaped name come from |
| `Phases.dfy`, `Refinement.dfy` | the protocol per slug; refinement of that slug's entry of a map from slug to (row, bytes) |
| `Recovery.dfy` | crashes at any moment, and runs of any number of process lifetimes |
| `Readers.dfy` | the public read route, from request to answer, and the listing while mutators run |
| `Lingering.dfy` | how long an expired row stays in the table |
| `Races.dfy` | runs that lose or mix data: two races, a failed rename, a crash, an extension that looks like scratch |
| `Container.dfy` | the store object as imperative code, its sweep refining the protocol's sweep thread |
| `Streaming.dfy`, `Handlers.dfy` | the request headers, the capped body reader, the sniff and the copy; the handlers as imperative code, refining the protocol's threads |
| `Ttl.dfy`, `Settings.dfy` | the TTL grammar with its 64-bit arithmetic; configuration |
| `Filename.dfy` | the filename sanitiser and the UTF-8 it truncates by |

Two predicates carry the protocol proofs. `Safe` needs no assumption: it says who owns which scratch file and what
is in it. `PhasedAt` says of one slug that it is in one of six phases (no row and no file, both, and the four half-way
points), named by the thread working on it. It is kept as long as no two threads work on that slug at once
(`ExclusiveAt`): a sweep counts as working on every row it listed, an upload on the slug it drew from its INSERT on,
a replace from its lookup on, and a handler that gave up after a storage failure on what it left behind. Whatever
goes on at other slugs, races included, is covered, and so is every storage failure, up to the next lookup of a slug
that a handler gave up on: from there `NextReplace` and `NextDelete` say what the next handler makes of it.
`Contends` names the events that break `ExclusiveAt`, `ContendsExactly` shows that they are all, and `Races.dfy` gives
runs in which that loses data. What holds in any race is `RaceOutcome`: the last UPDATE paired with the last rename.
The next boot puts every slug back in phase from any state (`BootSettles`), unless it has a stray: a directory at one
of its names, or a young file whose extension ends in `.partial` and which is not its row's.

## Where the code and its comments differ

* `cmd/server/files.go:82-83` says a replace that dies between UPDATE and rename is recovered. It is not: with the
  extension unchanged the new row stays over the old bytes, and with a changed extension the upload is gone
  (`CrashRecovery` for all runs, `ReplaceCut` for a run that does it). `internal/store/container.go:338-340` describes
  only the second case.
* `cmd/server/upload.go:19-20` says boot sweeps the `.partial` of a crashed upload. Boot leaves those younger than
  five minutes (`BootConverges` keeps exactly the young ones), and nothing removes them before the next boot.
* `internal/store/container.go:253-255` calls old `.partial` files what crashed uploads and replaces left. The extension
  allowlist admits `.partial`, so a committed upload can have it, and then boot deletes it once it is five minutes old
  (`CommittedSurvivesBoot`, and `PartialUploadLost` for a run).
* `internal/api/ttl.go:12-15` speaks of integers. The rewrite multiplies in a machine int, so a large day or week
  count wraps and can be accepted as another duration (`ParseTTLRoundTrip` says exactly when, `WrappedDays` gives one).
  A fraction of a day or week is not refused either: the digits after the point are rewritten on their own, so `1.5d` is
  accepted as 1.12 hours (`FractionalDayParses`).

## Model

| member | source | states |
|---|---|---|
| `Names.SlugBijection` | cmd/server/helpers.go:18-24 | generator and validator agree exactly: encoding six bytes and decoding a valid slug are inverse in both directions |
| `Names.SlugPattern` | internal/api/identity.go:13 | a slug is eight characters of the spelled-out URL-safe alphabet, and nothing else is |
| `Names.SlugDigits` | cmd/server/helpers.go:18-24 | the drawn slug spells the base-64 digits of each 24-bit group of its seed in that alphabet, most significant first |
| `Names.SanitiseExtFixes` | cmd/server/diskname.go:8-18 | a dot and 1 to 16 of the listed characters pass unchanged, and every other extension becomes empty |
| `Names.ScratchDigits` | cmd/server/helpers.go:26-33 | the drawn scratch name is two lower-case hex digits a byte, then `.partial` |
| `Names.ScratchDraws` | cmd/server/wire.go:87-91 | every name of 16 hex digits and `.partial` is drawn from some 8-byte nonce |
| `Names.NameSpaces` | internal/store/container.go:105-109 | a disk name determines slug and extension, has no path separator, belongs to one slug only, and is never a scratch name |
| `Names.ScratchBelongsToNone` | internal/store/container.go:26-28 | no scratch name is the disk name of any slug, though it may begin with a valid slug |
| `Names.PartialByExtension` | internal/store/container.go:269-271 | a committed name looks like scratch iff its extension is something followed by `.partial` |
| `Booting.BootConverges` | cmd/server/main.go:63-80 | from any rows and files, boot ends with every row's file present and every non-scratch file owned; exactly which rows and names survive; nothing altered |
| `Booting.BootExactly` | cmd/server/main.go:63-80 | name by name and row by row: boot leaves the directories, the `.partial` files under 300 seconds old and the other files some row names, and the rows whose name is left |
| `Booting.CommittedSurvivesBoot` | internal/store/container.go:256-286 | a committed upload survives boot iff its extension does not end in `.partial` or its file is under 300 seconds old |
| `Booting.BootLeftovers` | internal/store/container.go:272-334 | under any failing removals, stats and deletes, what boot leaves unreconciled is exactly what those calls were for |
| `Booting.ReconcilePassesCommute` | internal/store/container.go:288-375 | the two reconcile passes commute and each is idempotent, under any failures |
| `Booting.InterruptedBoot` | cmd/server/main.go:63-80 | dying in mid-boot, after any removals in any order, does not change where the next boot ends |
| `Booting.BootByRemovals` | cmd/server/main.go:63-80 | the boot sequence is some sequence of single removals that its passes would make |
| `Machine.AloneIsExec` | cmd/server/files.go:84-159 | a handler run alone is a run of the concurrent system, so the theorems about runs apply to the handler methods |
| `Machine.RequestAlone` | cmd/server/files.go:31-159 | a request or sweep that comes to an idle system is taken up (an upload or replace if its extension passed its check) and its run is that of its handler alone |
| `Safety.SafeStep` | internal/store/container.go:211-251 | every step of every thread, crash and boot removal keeps: own scratch file complete so far, no two owners of one scratch name, rows well formed |
| `Safety.StepFrame` | internal/store/container.go:216-221 | no step disturbs another thread's scratch file or takes its name |
| `Safety.OnlyPromoteDelivers` | internal/store/container.go:244-251 | the rename of a finished scratch file is the only event that puts other bytes at a slug-shaped name, and it puts the whole body there |
| `Safety.Provenance` | cmd/server/upload.go:24-62 | in every run, any races included, a file at a slug-shaped name holds the whole body of the last rename to that name, or nothing was renamed there and it is as at the start |
| `Safety.RowProvenance` | internal/store/container.go:118-197 | in every run a row is the last one stored under its slug, or as at the start |
| `Safety.VisibleForItsTTL` | internal/store/queries.go:18-25 | over every run: the row last stored for a slug comes from a request that arrived, is stamped with the clock at the end of its body, and lookups find it exactly while that plus the requested TTL is ahead |
| `Safety.RaceOutcome` | cmd/server/files.go:104-145 | the exact outcome of any race: the row of the last INSERT or UPDATE, the bytes of the last rename to its name |
| `Safety.RequestsArrive` | cmd/server/wire.go:75-102 | each body a thread streams is that of a request that arrived, for a replace of a request to that slug |
| `Safety.ProvenanceOfRequest` | cmd/server/files.go:72-138 | that last rename was for a request that arrived, for a replace one to that slug: never torn, never another slug's |
| `Phases.Promoted` | cmd/server/files.go:130-145 | the rename of an upload or replace, from each phase it can start in, with the bytes that result |
| `Phases.Elsewhere` | internal/store/queries.go:32-50 | a step of a thread not working on a slug leaves its row and files alone |
| `Phases.Worked` | cmd/server/upload.go:24-62 | a step of the thread working on a slug takes it to the next phase and acts on its item as the abstract operation |
| `Refinement.ContendsExactly` | internal/store/container.go:118-203 | exactly a lookup, an INSERT or a listing that hits a slug another thread works on ends exclusive work on it |
| `Refinement.StepRefines` | cmd/server/files.go:31-159 | one event, whatever races go on at other slugs, is one atomic operation on the slug's entry, made on the version its thread looked up, and keeps the slug in phase |
| `Refinement.RunRefines` | cmd/server/files.go:31-159 | over whole runs with any failures and any races at other slugs, the slug's entry is what replaying the atomic operations gives, and no update is lost |
| `Refinement.NonInterference` | cmd/server/files.go:31-159 | runs that do the same to a slug leave it the same entry, whatever they do elsewhere |
| `Refinement.SizesStayRight` | cmd/server/upload.go:24-62 | a right recorded size stays right, and any completed upload or replace makes it right |
| `Refinement.Settles` | internal/store/container.go:89-109 | a slug nobody works on has a row iff it has a file, then exactly one, at its disk name, of the recorded size iff its entry is sound |
| `Recovery.RebootIsRun` | cmd/server/main.go:63-80 | death, downtime and boot are a run of single events, so whatever holds of all runs covers them |
| `Recovery.BootSettles` | internal/store/container.go:256-375 | from any state, races included, boot puts a slug back in phase iff it has no stray file, and shows its surviving row |
| `Recovery.CrashRecovery` | cmd/server/files.go:104-145 | after a crash at any step and boot, the slug's entry in every case; it changed iff a replace with another row stood between UPDATE and rename or the file was reaped as scratch; the slug is in phase iff nothing young and `.partial` was left |
| `Recovery.NextReplace` | cmd/server/files.go:104-145 | the next replace of a slug a handler gave up on puts row and bytes right, and which stray file it leaves |
| `Recovery.NextDelete` | cmd/server/files.go:51-62 | the next delete of a slug a handler gave up on removes row and file |
| `Recovery.LivesRefine` | cmd/server/main.go:63-80 | over any number of lifetimes, the slug's entry is what the operations and the crashes between them say |
| `Recovery.CrashesInvisible` | cmd/server/upload.go:17-62 | if no crash damages the slug, any number of lifetimes give the entry that the operations alone would |
| `Recovery.LivesProvenance` | cmd/server/files.go:72-138 | provenance over any number of lifetimes, by a request that arrived in one of them |
| `Recovery.LivesAreRun` | cmd/server/main.go:63-80 | any number of lifetimes is one run, with no requests or steps but theirs |
| `Readers.ServeRun` | cmd/server/serve.go:31-81 | over every run, races included, from the request to its answer: which of 404, 500 or the bytes a reader gets, from the table and clock at its lookup and the directory at its open |
| `Readers.OpenReadsView` | cmd/server/serve.go:55-67 | opening by a looked-up row reads exactly the bytes of the slug's entry while the extension stands |
| `Readers.OpenMissesIff` | cmd/server/serve.go:55-67 | an open by any earlier row misses iff the slug's phase has no file of that extension, and reads a complete file otherwise |
| `Readers.LookupMissesIff` | cmd/server/serve.go:38-67 | a request that looks up and opens at once is answered with a missing file iff it finds a row while an upload stands between INSERT and rename, or an extension-changing replace between UPDATE and rename |
| `Readers.ReaderMissesIff` | cmd/server/serve.go:38-81 | a request overtaken by any events is answered with a missing file iff it found a row and the slug then has no file of that extension |
| `Readers.ReaderSeesOldOrNew` | cmd/server/serve.go:38-81 | a request overtaken by any same-extension replaces of its slug is answered with the complete old or new bytes, never a missing file |
| `Readers.LookupAgreesIff` | cmd/server/serve.go:38-51 | the looked-up row has the extension of the entry being served iff the lookup is outside those two windows |
| `Readers.MissWindow` | cmd/server/files.go:120-145 | between UPDATE and rename a request finds the new row, and is answered with a missing file iff the extension changed, and with the old bytes if not |
| `Readers.SweepStepVisibleIff` | internal/store/sweeper.go:46-75 | in any state, readers notice a sweep step iff it deletes a row visible to them |
| `Readers.SweepInvisible` | internal/store/sweeper.go:34-81 | with nobody else at the slug it deletes, no sweep step changes any read query at any later time |
| `Readers.RowFirst` | internal/store/container.go:159-175 | no step of a delete or sweep takes or changes the file under a row, given nobody else works on the slug whose file it removes |
| `Lingering.PassExists` | internal/store/sweeper.go:34-81 | from any state a whole pass can be brought to its end |
| `Lingering.PassClears` | internal/store/sweeper.go:34-81 | after a whole pass of the sweep thread, among any other threads, a row expired by its start was stored while it ran |
| `Lingering.StaysClear` | internal/store/sweeper.go:34-81 | and so it stays whatever happens later |
| `Lingering.StoredWhen` | internal/store/container.go:118-197 | what "was stored since" means: at an event no earlier, a thread put that row into the table |
| `Lingering.NoRowLingers` | internal/store/sweeper.go:11-30 | over every run of a process, at every instant from the end of the first pass on, with the sweep cadence of the configuration: a row is less than minTTL and two passes past its expiry, or was stored less than that ago |
| `Lingering.StoredTTLs` | cmd/server/wire.go:36-48 | over every run, every stored row has a TTL in the configured range |
| `Lingering.LingersNoLongerThanItLived` | cmd/server/main.go:82-90 | so no upload lingers past its expiry for more than its own TTL and two passes |
| `Races.TwoReplacesMix` | internal/store/queries.go:39-50 | two replaces of one slug and nothing else, no failure: the run's operations and the end state, which pairs the second's row with the first's bytes where a map would have both of the first |
| `Races.SweepUndoesReplace` | internal/store/queries.go:32 | one replace and one sweep and nothing else, no failure: the unexpired upload the operations leave in a map is gone, row and file |
| `Races.UploadRenameFails` | cmd/server/upload.go:40-48 | an upload whose rename fails deletes its row and scratch file again and leaves the system exactly as it was |
| `Races.ReplaceRenameFails` | cmd/server/files.go:130-138 | a replace whose rename fails leaves its UPDATE and its scratch file, and what boot then makes of them |
| `Races.ReplaceCut` | cmd/server/files.go:120-138 | a replace that dies before its rename ends, after boot, with the new row over the old bytes or with nothing |
| `Races.PartialUploadLost` | cmd/server/diskname.go:8-18 | an acknowledged `.partial` upload is gone after a reboot five minutes later |
| `Containers.OrderBy` | internal/store/queries.go:26-38 | each selected row once, in the query's order |
| `Containers.Container.Insert` | internal/store/container.go:118-132 | adds the row, or reports the slug taken or the failure and adds none |
| `Containers.Container.Get` | internal/store/container.go:140-150 | the row iff it is present and now is before its uploadedAt plus its TTL |
| `Containers.Container.ListAll` | internal/store/container.go:154-157 | exactly the rows with uploadedAt plus TTL ahead of now, latest uploadedAt first |
| `Containers.Container.DeleteBySlug` | internal/store/container.go:162-175 | removes the row of that slug only; says whether there was one |
| `Containers.Container.ReplaceContent` | internal/store/container.go:180-197 | replaces the row of that slug, or reports it gone |
| `Containers.Container.ListExpired` | internal/store/container.go:200-203 | exactly the rows with uploadedAt plus TTL not ahead of now, earliest first, or the failure |
| `Containers.Container.CreateFile` | internal/store/container.go:218-221 | exclusive create: succeeds only on a free name |
| `Containers.Container.RemoveFile` | internal/store/container.go:236-242 | the name is gone afterwards, and a missing file is no error |
| `Containers.Container.RenameFile` | internal/store/container.go:246-251 | moves the file, over an existing one; no change on failure, and when it fails |
| `Containers.Container.OpenFile` | cmd/server/serve.go:55-67 | the bytes of the file, or which failure |
| `Containers.Container.ReapPartials` | internal/store/container.go:256-286 | the loop removes exactly the stale scratch files whose own calls succeed, and counts them |
| `Containers.Container.ReconcileFiles` | internal/store/container.go:292-334 | the loops build the known set and remove exactly the removable orphans, and count them |
| `Containers.Container.ReconcileRows` | internal/store/container.go:344-375 | the loop deletes exactly the deletable rows whose file is missing, and counts them |
| `Containers.Container.BootReap` | cmd/server/main.go:66-80 | the boot order, each pass going ahead whether or not the last one failed |
| `Containers.Container.SweepOnce` | internal/store/sweeper.go:34-81 | under any failures it visits the expired rows in order up to the first cancellation, and the store and `deleted` are what the tally of visited rows says; with none, every due row goes with its file; it does what the sweep thread of the protocol does |
| `Containers.Container.SweepRow` | internal/store/sweeper.go:54-80 | row first, then file, for one row |
| `Containers.VisitedMeans` | internal/store/sweeper.go:46-81 | the tally outright: counted rows are those this pass deleted, each had its file removal tried |
| `Containers.ErrorFreePass` | internal/store/sweeper.go:46-81 | a pass in which nothing goes wrong leaves exactly the unexpired rows |
| `Containers.CleanPass` | internal/store/sweeper.go:46-81 | a pass without failures in the rows' own columns: rows, files and count |
| `Handlers.Server.HandleDelete` | cmd/server/files.go:31-70 | exactly which status it answers, and that 204 means the row is gone, and the file if its removal worked; any other answer means nothing changed; refines the delete thread, wherever the process dies |
| `Handlers.Server.HandleServe` | cmd/server/serve.go:27-81 | exactly what it answers, from row, clock and directory; refines the serve thread |
| `Handlers.Server.InsertWithRetry` | cmd/server/upload.go:66-94 | succeeds iff one of at most five draws is free with no failure before it, and then adds exactly that row; otherwise no row |
| `Handlers.Server.HandleUpload` | cmd/server/upload.go:24-62 | accepted, too large or refused by header and body alone; exactly when it replies; a reply means the row, column by column, and the body are in place and nothing else changed; a failed rename is undone; refines the upload thread from the network's reads to the rename |
| `Handlers.Server.Publish` | cmd/server/upload.go:33-62 | insert, rename, and both undone if the rename fails; replies iff both work |
| `Handlers.Server.Withdraw` | cmd/server/upload.go:40-48 | takes back row and scratch file, each unless its own call fails |
| `Handlers.Server.HandleReplace` | cmd/server/files.go:84-159 | exactly how it is turned away (400, 404, 413, 500) or accepted, and when it replies; a reply means the new row, column by column, and body are in place, the old-extension file gone if its removal worked, and nothing else changed; refines the replace thread |
| `Handlers.Server.Overwrite` | cmd/server/files.go:104-145 | UPDATE, then the swap; row and files in every case that replies, and when it does |
| `Handlers.Server.SwapIn` | cmd/server/files.go:130-145 | rename and old-extension clean-up: when it gets through, and the directory then; refines the protocol's steps |
| `BodyStream.CappedBody.Read` | cmd/server/wire.go:80 | any chunking: delivers the next bytes within the cap and keeps reporting the error it ended with |
| `BodyStream.ReadFull` | cmd/server/wire.go:54-65 | the first 512 bytes or all there are, and how a short read ends |
| `BodyStream.CopyBody` | internal/store/container.go:222 | the copy loop writes the prefix and then every read, in order |
| `BodyStream.WriteFile` | internal/store/container.go:216-232 | refines the streaming thread under any chunking; success means the file is the whole source, byte for byte; failure leaves the directory as before |
| `BodyStream.ParseHeaders` | cmd/server/wire.go:35-52 | what the headers come to: the default TTL if none is given, the parsed one if it is in range, none otherwise; extension and filename through their sanitisers |
| `BodyStream.StreamToPartial` | cmd/server/wire.go:79-102 | accepted if the TTL is good and the whole body is there within the cap, however short; 413 iff the body is over the cap; 400 without TTL or body; never on the chunking; a body cut short is never accepted; refines the streaming thread |
| `Settings.EnvTTLRange` | cmd/server/main.go:254-266 | a TTL read from the environment is positive |
| `Settings.LoadsTTLs` | cmd/server/main.go:192-207 | exactly which three values load, with the blank defaults of 7 days, 10 minutes and 365 days in nanoseconds |
| `Settings.TTLsInRange` | cmd/server/main.go:192-207 | a configuration that loads has 0 < min <= default <= max, accepts a request with no header, and admits only TTLs in range |
| `Settings.HeaderHonoured` | cmd/server/wire.go:38-48 | a non-empty header is granted exactly what it parses to, if that is in range |
| `Settings.PrintedHeader` | cmd/server/wire.go:38-48 | printed components are granted as their exact sum, or refused iff that is out of range |
| `Settings.PrintedValue` | cmd/server/main.go:254-266 | the same for a value from the environment |
| `Ttl.RewriteConcat` | internal/api/ttl.go:16 | the rewrite distributes over concatenation at component boundaries |
| `Ttl.RewriteStandard` | internal/api/ttl.go:31-43 | it is the identity where no digit is directly followed by d or w |
| `Ttl.RewriteIdempotent` | internal/api/ttl.go:31-43 | it is idempotent, also where Atoi fails |
| `Ttl.FractionalDay` | internal/api/ttl.go:16 | `1.5d` becomes `1.120h` |
| `Ttl.FractionalDayParses` | internal/api/ttl.go:31-44 | and is accepted, as 1.12 hours |
| `Ttl.ParseTTLConservative` | internal/api/ttl.go:18-22 | on standard strings, fractions included, it is the standard parser less non-positive results |
| `Ttl.ParseTTLRange` | internal/api/ttl.go:48-51 | accepted durations are positive and fit int64 |
| `Ttl.LeadingIntExact` | internal/api/ttl.go:44 | the digit-by-digit overflow checks refuse exactly the numbers past 2^63 |
| `Ttl.ParseTTLExact` | internal/api/ttl.go:23-52 | for every list of components, wrapped counts included, the exact result: the sum of the hours the machine made of them, or an error |
| `Ttl.ParseTTLRoundTrip` | internal/api/ttl.go:23-52 | printing components and parsing gives the sum if it is positive and fits, and an error otherwise, iff the list is not one whose counts wrap to a duration |
| `Ttl.OneDayOrWeek` | internal/api/ttl.go:34-42 | the exact outcome for every single day or week count, wrapping included |
| `Ttl.WrappedDays` | internal/api/ttl.go:42 | 768614336404564651 days are accepted as eight hours |
| `Ttl.UnitTable` | internal/api/ttl.go:44 | the units of the standard parser and their nanoseconds, and no others |
| `Ttl.OneUnit` | internal/api/ttl.go:44 | one count and one unit parse to their product, or overflow |
| `Ttl.EachUnit` | internal/api/ttl.go:12-22 | weeks, days, hours, minutes and seconds in nanoseconds |
| `Ttl.FractionParses` | internal/api/ttl.go:44 | a count with a fraction is the whole units plus what the floating-point step makes of the rest |
| `Ttl.NegativeRefused` | internal/api/ttl.go:48-50 | anything behind a hyphen is refused |
| `Ttl.PaddingIgnored` | internal/api/ttl.go:24 | white space around the value changes nothing |
| `Filename.EncodingTable` | cmd/server/helpers.go:52-55 | the UTF-8 table: lengths, lead bits and six bits in each further byte |
| `Filename.SanitiseSafe` | cmd/server/helpers.go:35-57 | for every byte string: no byte below 0x20 and no 0x7F, 0x22, 0x2F or 0x5C is left, at most 200 runes, idempotent |
| `Filename.SanitiseKeeps` | cmd/server/helpers.go:38-57 | a clean name of at most 200 runes is kept as it is, whatever directories stand before it |
| `Filename.SanitiseParts` | cmd/server/helpers.go:39-56 | what becomes of any other: the bytes kept of its last component, cut to 200 runes |
| `Filename.FilterAppend` | cmd/server/helpers.go:42-49 | which bytes are dropped, each on its own |
| `Filename.SanitiseWellFormed` | cmd/server/helpers.go:50-56 | well-formed UTF-8 stays so, as a rune-boundary prefix of the filtered last component |
| `Filename.SanitiseOriginalFilename` | cmd/server/helpers.go:38-57 | the loops compute the specified function |
| `Filename.CutToLastComponent` | cmd/server/helpers.go:39-41 | the part after the last 0x2F or 0x5C, or the whole name |

## Left out

- Authentication, routing, response formatting, logging, health checks and the command-line client.
- Content sniffing: the sniffed type is an opaque column of the row.
- `handleListFiles`, `toAPI`: a copy of the `ListAll` result, field by field.
- `filepath.Base` and `filepath.Ext`: filename and extension arrive as arbitrary strings at the sanitisers.
- SQLite and the filesystem below one call: each query, create, write, remove and rename is one atomic step that
  may fail without effect; no power loss; timestamps and durations are mathematical integers in the table.
- A cursor or scan error part-way through a listing query: a listing fails as a whole or not at all.
- Directories inside files/ are skipped by the passes and block a rename, as in the code; none is ever created.
- `ParseDuration`: the floating-point step that turns a fraction into nanoseconds is a parameter; how it rounds is not
  modelled, and only `FractionalDayParses` assumes a value of it.
- `RunSweeper`: its select loop appears in `Lingering` as the assumption (`Ticking`) that each pass begins no later than
  an interval after the one before it ends, which is what a ticker of that period gives.
- StreamToPartial: which of two simultaneous failures, of the disk and of the body, decides the status is not stated.
- Randomness: slugs and scratch names are drawn as arbitrary values of their shape, which `SlugBijection` and
  `ScratchDraws` show are all that the generators produce.
