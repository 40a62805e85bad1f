# Startup and migration safety of artifact-keeper, in Dafny

artifact-keeper is an artifact registry server backed by PostgreSQL. This project models the parts
of it whose correctness is hardest to see from the code: what several replicas do to one database
while they boot and crash, and the scanner that keeps write-blocking SQL out of its migrations.
Each part is a model plus theorems over every input, every run or every interleaving.

| file | what it models |
|---|---|
| `ConcurrentIndexes.dfy` | the cleanup of interrupted `CREATE INDEX CONCURRENTLY` migrations, run by any number of replicas that crash anywhere |
| `Ledger.dfy` | the `_sqlx_migrations` ledger, the migrator's walk over it, and the three ledger repairs |
| `Upgrade119.dfy` | boots of a v1.1.9 database, statement by statement, crashing between any two |
| `OverlappingBoots.dfy` | the same boots, any number of them at once |
| `Renumber15x.dfy` | the v1.5.x renumbering as a transaction, interleaved by any number of replicas |
| `Upgrade15x.dfy` | the whole v1.5.x upgrade: replicas walking the migrations while others still renumber |
| `Provisioning.dfy` | the built-in admin: the locked transaction, the password file, the environment of each boot |
| `SqlMask.dfy`, `Utf8.dfy` | the byte lexer that blanks comments and literals, the statement splitter, line numbers |
| `SqlGrammar.dfy` | the lexer against a grammar of comments and literals that does not mention it (sections 4.1.2.1 and 4.1.5 of the PostgreSQL manual) |
| `Phrases.dfy` | the word-bounded phrase matcher and the identifier reader |
| `DollarQuotes.dfy` | dollar-quoted bodies (section 4.1.2.4 of the PostgreSQL manual) and the top-level statement count |
| `Targets.dfy`, `Classifier.dfy`, `MigrationGate.dfy` | which table a phrase is aimed at, which statements block writers, the findings of a file, the lock-timeout rule |
| `SecretPeriod.dfy` | the repetition check of the secret strength heuristic |
| `Retry.dfy` | the two bounded retries of the database layer |
| `TestSurface.dfy` | the test counter that reads attribute lines |

`Prelude.dfy` and `Ascii.dfy` hold an option type and ASCII classification.

## How the source is rendered

- Code that changes state step by step (scanner loops, the repairs, the password file writer, the
  retry loops) is imperative: methods with loops, or a class whose fields are updated. Each is proved
  equal to a specification function or relation, and the theorems are about that.
- Concurrency is a state machine: an event is one statement of one replica, a boot, or a crash.
  A crash also stands for a failed statement that ends the boot; the replica's session ends with
  it, so its locks are released and its open transaction is rolled back. `IsRun` and `After` give
  the runs. Theorems quantify over all of them.
- Text is a string of bytes, one char per byte, except in `SecretPeriod.dfy`, where the source
  works on Unicode scalar values.
- Clock, randomness, environment variables, call outcomes and SHA-384 values are parameters.

## What was found

Where a property does not hold of the code, a lemma shows a failing case and another says exactly
when it holds.

- A recorded concurrent-index migration has a valid index over every run of boots that come one at a
  time. With several replicas it fails: the repair and the migrator take the lock twice, so a build
  that dies in between is recorded as done by the other replica (`FreshInstallCanRecordInvalid`, a
  fresh install of two replicas). It holds exactly while no registered build is interrupted with
  another replica between its two lock periods (`UninterruptedIffNeverExposed`, `RecordedImpliesValid`,
  `InterruptionIsFatal`).
- The comment on the v1.1.9 repair says that a retried boot after a partial failure is safe. It is,
  unless the failure comes strictly after the lockout ALTER and before the last checksum UPDATE: the
  repair of row 73 that runs first in the next boot then rewrites that row, the v1.1.9 detection no
  longer matches, and every later boot stops at 74 or 75 (`RetrySafeIffNoZoneCrash`,
  `ZoneCrashStopsEveryBoot`; `ZoneCrashHappens` gives one).
- The v1.1.9 repair takes no lock, and with overlapping boots a row can carry main's checksum without
  main's schema (`OverlappingBootsLoseTheConstraint`, a run of two boots), for good (`LostForGood`).
  Over every interleaving this concerns slot 75 only, and happens if and only if row 75 has main's
  checksum while the quarantine constraint was last dropped rather than added
  (`UnbackedIffDroppedLast`). With boots one after another it never happens (`ChecksumImpliesSchema`).
- The comment in `mask_sql` that only ASCII is kept at code positions is not what the code does:
  non-ASCII code bytes are kept as they are. The conclusion drawn from it, that the result is valid
  UTF-8, holds (`MaskStaysUtf8`).
- `identifier_after` is documented to skip a schema prefix and double quotes. Of `"schema"."table"` it
  returns the schema, whatever follows (`QuotedSchemaIsTaken`, `QuotedSchemaExample`). A component is
  dropped if and only if a dot stands directly behind its last word byte and a further name begins
  after that (`FirstComponentDroppedIff`).
- The guard of the TYPE loop in `classify` is implied by the attribution to the nearest ALTER TABLE
  (`AlterMeansAlter`).

## Model

| member | source | states |
|---|---|---|
| `ConcurrentIndexes.UnappliedIndexes` | backend/src/migration_repair.rs:602-611 | a name is listed exactly when some registered pair has it with an unapplied version |
| `ConcurrentIndexes.Catalog.DropInvalidUnapplied` | backend/src/migration_repair.rs:655-686 | exactly the INVALID indexes of unrecorded registered migrations are dropped and reported; every other index keeps its state |
| `ConcurrentIndexes.InvStep` | backend/src/migration_repair.rs:623-686 | every statement, boot and crash of any replica keeps the lock discipline and what each repair pass and each walk has established |
| `ConcurrentIndexes.DropsOnlyDeadLeftovers` | backend/src/migration_repair.rs:637-643 | over every interleaving, an index about to be dropped is INVALID, nobody is building it, and its registered migration is unrecorded |
| `ConcurrentIndexes.ExposureIffInterruption` | backend/src/main.rs:227-239 | a step leaves some replica facing a leftover exactly when it interrupts a registered build while another replica is between its two lock periods |
| `ConcurrentIndexes.UninterruptedIffNeverExposed` | backend/src/main.rs:227-239 | a run never exposes a replica if and only if no such interruption happens in it |
| `ConcurrentIndexes.SharedResetIsWellFormed` | backend/migrations/265_download_holds_quarantine_index_reset.sql:10-14 | a plan whose one file resets the indexes that two later files build, as shipped, is among those the theorems cover |
| `ConcurrentIndexes.RecordedImpliesValid` | backend/src/migration_repair.rs:575-590 | any number of replicas: in every uninterrupted run, recorded implies a valid index |
| `ConcurrentIndexes.SequentialBootsRecordOnlyValid` | backend/src/migration_repair.rs:575-590 | over every run of boots one at a time, crashing anywhere, recorded implies a valid index |
| `ConcurrentIndexes.WalkRecordsLeftover` | backend/src/migration_repair.rs:580-583 | a walk that faces an INVALID leftover records its migration if left alone |
| `ConcurrentIndexes.ExposureIsFatal` | backend/src/main.rs:237-239 | from every exposed state some continuation records an INVALID index, so the condition is exact |
| `ConcurrentIndexes.InterruptionIsFatal` | backend/src/main.rs:237-239 | after any such interruption some continuation records an INVALID index |
| `ConcurrentIndexes.FreshInstallCanRecordInvalid` | backend/src/migration_repair.rs:628-635 | a concrete run of two replicas on a fresh install that records an INVALID index |
| `ConcurrentIndexes.SweepRun` | backend/src/migration_repair.rs:641-644 | the repair pass of the state machine, left alone, ends unlocked with exactly the listed leftovers dropped, as the method does it |
| `Ledger.WalkCompletes` | backend/src/main.rs:239 | on a matching ledger the migrator records every file, applies exactly the missing ones in order and changes no row |
| `Ledger.WalkStops` | backend/src/main.rs:239 | the migrator stops at the first recorded version whose checksum differs, having changed nothing from there on |
| `Ledger.Database.RepairLegacy073` | backend/src/migration_repair.rs:47-106 | row 73 is rewritten exactly when the table, the row and the lockout column are there and the checksum is stale |
| `Ledger.Database.ApplyMainSlots` | backend/src/migration_repair.rs:242-306 | the eight schema statements leave the objects of main's 073, 074 and 075 in place and touch no row |
| `Ledger.Database.RewriteChecksums` | backend/src/migration_repair.rs:308-328 | exactly rows 73 to 75 get the current files' checksums |
| `Ledger.Database.RepairRelease119` | backend/src/migration_repair.rs:180-331 | exactly a ledger with all three v1.1.9 checksums is repaired, schema and rows, with every object of the three slots there and the old constraint gone; any other is left alone |
| `Ledger.Database.Renumber` | backend/src/migration_repair.rs:536-549 | one version UPDATE: a key conflict fails and changes nothing, else the row moves with its checksum |
| `Ledger.Database.RepairRelease15x` | backend/src/migration_repair.rs:412-573 | exactly a renumberable ledger is renumbered, one row per move, no UPDATE can hit an occupied slot, and no row moves without its backing object and free slots |
| `Ledger.HealthyLedgerUntouched` | backend/src/main.rs:205-207 | on every ledger the migrator would accept, the three repairs in boot order change nothing |
| `Ledger.RenumberingCommutes` | backend/src/migration_repair.rs:477-506 | on every database the v1.5.x repair and each of the other two give the same result in either order |
| `Ledger.UnrepairedUpgradeStops` | backend/src/migration_repair.rs:353-392 | from every pristine v1.5.7 or v1.5.8 ledger the migrator stops at 154 without the repair |
| `Ledger.RepairedLedgerMatches` | backend/src/migration_repair.rs:471-549 | after the repair every row carries the checksum of the file of its version |
| `Ledger.RepairedUpgradeCompletes` | backend/src/migration_repair.rs:353-392 | after the boot's three repairs the migrator completes with a ledger equal to the files, applying exactly the missing versions, never 157, and 163 only from v1.5.7 |
| `Upgrade119.BootRunsTheRepairs` | backend/src/main.rs:205-206 | the statements of an uncrashed boot add up to the first two repairs exactly |
| `Upgrade119.BootsClassified` | backend/src/migration_repair.rs:217-328 | over all boots with crashes from a v1.1.9 database, the database is v1.1.9 still, repaired, or wedged, and wedged exactly after a crash in the zone |
| `Upgrade119.RetrySafeIffNoZoneCrash` | backend/src/migration_repair.rs:153-159 | a later boot gets through the migrator if and only if no earlier boot crashed after the lockout ALTER and before the last checksum UPDATE |
| `Upgrade119.ZoneCrashStopsEveryBoot` | backend/src/migration_repair.rs:60-104 | after such a crash every boot stops at a mismatch of 74 or 75 |
| `Upgrade119.ChecksumImpliesSchema` | backend/src/migration_repair.rs:217-328 | at every statement of all these runs, a row 73 to 75 with main's checksum has main's schema behind it |
| `Upgrade119.ZoneCrashHappens` | backend/src/migration_repair.rs:242-271 | a boot of a v1.1.9 database that dies after five statements is such a crash |
| `OverlappingBoots.InvStep` | backend/src/migration_repair.rs:180-331 | every statement, boot and crash of any number of boots keeps what each has laid and what rows and constraint tell |
| `OverlappingBoots.UnbackedIffDroppedLast` | backend/src/migration_repair.rs:273-284 | over every interleaving from a v1.1.9 database, rows 73 and 74 with main's checksum have main's schema, and row 75 lacks its own if and only if it has main's checksum and the constraint was last dropped rather than added |
| `OverlappingBoots.OverlappingBootsLoseTheConstraint` | backend/src/migration_repair.rs:273-284 | a run of two boots that ends with repaired rows and no constraint |
| `OverlappingBoots.LostForGood` | backend/src/migration_repair.rs:225-230 | once it is lost with nobody inside the repair, no run brings it back |
| `Renumber15x.NoConflict` | backend/src/migration_repair.rs:536-549 | in every reachable state, an UPDATE about to run has a row to move and a free slot |
| `Renumber15x.EveryInterleavingRepairsOnce` | backend/src/migration_repair.rs:431-572 | over every interleaving with rollbacks, the committed ledger is the original or the one sequential repair, and at most one commit moved rows |
| `Renumber15x.ChecksumsConserved` | backend/src/migration_repair.rs:431-572 | over every interleaving, each checksum is on as many rows as before, and rows outside the diverged slots are unchanged |
| `Renumber15x.SoloReplicaRepairs` | backend/src/migration_repair.rs:412-573 | a replica left alone carries out the sequential repair |
| `Renumber15x.RenumberedIff` | backend/src/migration_repair.rs:471-530 | some run changes the ledger if and only if row 154 has the checksum of 157, the index is there, 156 and 157 are free, and 155 is absent or has the checksum of 163 with its table there and 163 free |
| `Renumber15x.MovedRowsAreBacked` | backend/src/migration_repair.rs:508-530 | over every run from any database, 157 or 163 appears in the ledger only if the object of its migration exists |
| `Renumber15x.BlockedUpgradeStops` | backend/src/migration_repair.rs:481-530 | a missing object, an occupied slot or a foreign 155 leaves the ledger of every run unchanged, and the migrator stops at 154 |
| `Upgrade15x.InvStep` | backend/src/main.rs:205-239 | every step of a repair, a walk or a crash keeps the ledger original with nobody past the repair, or matching with every walk on course |
| `Upgrade15x.UpgradeCompletes` | backend/src/main.rs:205-239 | over every interleaving of repairs, walks and crashes from a pristine v1.5.x database: no walk stops, no version is applied twice, 157 (and 163 for v1.5.8) never is, and once a walk is done the ledger equals the files |
| `Upgrade15x.SoloCompletes` | backend/src/main.rs:205-239 | from every reachable state with one replica up, that replica, left alone, ends with the ledger equal to the files |
| `Provisioning.InsecureDefaultsAre` | backend/src/main.rs:2749-2765 | the ten well-known defaults, in any case, and no other password |
| `Provisioning.Decide` | backend/src/main.rs:2872-2927 | a non-empty ADMIN_PASSWORD is the password, to be changed exactly if it trips, whatever the preset; otherwise a preset is refused exactly if it is weak, else used and to be changed; otherwise a generated one |
| `Provisioning.Storage.WriteFilePrivate` | backend/src/main.rs:2635-2664 | success exactly if the temporary name is free, all bytes fit and the rename works; the target is the whole new text or untouched; a temporary file stays exactly if a failed attempt cannot remove it |
| `Provisioning.WriterRun` | backend/src/main.rs:2635-2664 | for every point of failure, the state machine has a run of file operations that leaves the disk as the writer does and the replica where its outcome sends it |
| `Provisioning.InvStep` | backend/src/main.rs:2192-2407 | every statement, file operation, crash and outside edit keeps the lock discipline and what each transaction's view may differ in |
| `Provisioning.CommitsAreChecked` | backend/src/main.rs:2254-2407 | what one event can change in the user table: nothing, or one checked view of the acting replica |
| `Provisioning.OthersNeverModified` | backend/src/main.rs:2470-2503 | over every run, no federated row and no row but `admin` is modified, added or removed |
| `Provisioning.SettledAdminStays` | backend/src/main.rs:2300-2321 | once the local admin has changed its password and ADMIN_PASSWORD is never a default, its hash and flag never change again |
| `Provisioning.BootRearmsIffTrips` | backend/src/main.rs:2300-2321 | an undisturbed boot re-arms a settled admin exactly if ADMIN_PASSWORD is a default outside demo mode, and changes nothing else |
| `Provisioning.PresetKeepsHash` | backend/src/main.rs:2341-2357 | while a preset resolves at every boot, the hash of an existing built-in admin never changes |
| `Provisioning.InactiveKeepsHash` | backend/src/main.rs:2323-2341 | a deactivated built-in admin keeps its hash over every run |
| `Provisioning.FileKeepsHash` | backend/src/main.rs:2341-2345 | while the password file is there, the hash of an existing built-in admin never changes |
| `Provisioning.OtherAdminKeepsTable` | backend/src/main.rs:2262-2281 | where another local administrator exists and no built-in one, the table never changes |
| `Provisioning.SkippedBootsChangeNothing` | backend/src/main.rs:2142-2161 | boots that skip provisioning or cannot read their secret change neither table nor volume |
| `Provisioning.TargetOldOrNew` | backend/src/main.rs:2654-2663 | over every interleaving and crash point, the password file changes only by a rename, to the whole text of the acting replica's password |
| `Provisioning.FirstInstallRun` | backend/src/main.rs:2439-2507 | from an install in progress with nothing configured, the admin row and the file never change once the row is there |
| `Provisioning.OneHashAndItsFile` | backend/src/main.rs:2192-2200 | from an empty table, over every run of crashing replicas, at most one hash is ever committed and from then on the file's first line is its plaintext |
| `Provisioning.ConfiguredInstall` | backend/src/main.rs:2410-2507 | from an empty table with every boot deciding alike and without a file, over every run the table is empty or holds the admin with that credential, and the volume is never written |
| `Provisioning.StrongPasswordInstall` | backend/src/main.rs:2878-2897 | so one strong ADMIN_PASSWORD gives an admin with exactly that password, no forced change, and no file |
| `Provisioning.WeakPresetInstallsNothing` | backend/src/main.rs:2899-2915 | a refused preset installs nothing |
| `Provisioning.BootCreates` | backend/src/main.rs:2410-2507 | on an empty table an undisturbed boot creates the admin it decides on, with the file exactly for a credential to be changed that is no preset |
| `Provisioning.BootRegenerates` | backend/src/main.rs:2357-2395 | an undisturbed boot gives an active, never changed admin whose file is gone a new password and writes it down |
| `Utf8.CharLenOfEncoded` | backend/src/migration_safety.rs:601-603 | where a scalar value stands encoded (section 3 of RFC 3629), the length of its encoding is found |
| `Utf8.EncodedOfCharLen` | backend/src/migration_safety.rs:601-603 | where a length is found, a scalar value with an encoding of that length stands there |
| `Utf8.SpaceLenExact` | backend/src/migration_safety.rs:619 | of encoded characters exactly those with the White_Space property are trimmed |
| `Utf8.AsciiBlankIff` | backend/src/migration_safety.rs:928-935 | ASCII text is blank exactly if it is ASCII white space throughout |
| `SqlMask.MaskSql` | backend/src/migration_safety.rs:544-604 | the scanner's loops compute the mask of the one-byte-at-a-time automaton |
| `SqlGrammar.MaskExact` | backend/src/migration_safety.rs:544-604 | for every text read by the grammar (bare bytes, line comments, nested block comments, literals with doubled quotes, an unclosed comment or literal at the end) the mask shows the bare bytes and blanks the rest |
| `SqlGrammar.EveryTextReads` | backend/src/migration_safety.rs:544-604 | every text has a reading in the grammar |
| `SqlGrammar.NestedCommentExample` | backend/src/migration_safety.rs:562-578 | a semicolon behind an inner comment is still blanked |
| `SqlMask.SkipLine` | backend/src/migration_safety.rs:553-557 | a line comment is blanked up to its newline, in the automaton's state there |
| `SqlMask.SkipBlock` | backend/src/migration_safety.rs:558-578 | nested comments are blanked to the close of the outermost one, or to the end |
| `SqlMask.SkipLiteral` | backend/src/migration_safety.rs:579-595 | a literal is blanked with its doubled quotes, to its closing quote or the end |
| `SqlMask.MaskShape` | backend/src/migration_safety.rs:544-604 | same length, each byte the source byte or a blank, newlines exactly where they were |
| `SqlMask.CharacterMaskedWhole` | backend/src/migration_safety.rs:601-603 | each well-formed character is kept whole or blanked whole |
| `SqlMask.MaskStaysUtf8` | backend/src/migration_safety.rs:601-603 | the mask of valid UTF-8 is valid UTF-8, so the final conversion cannot fail |
| `SqlMask.MaskIdempotent` | backend/src/migration_safety.rs:544-604 | masking twice is masking once |
| `SqlMask.ContentIrrelevant` | backend/src/migration_safety.rs:544-604 | replacing what a comment or literal says by any text, of any length, that stays inside and leaves it in the same state gives the same mask with as many blanks for that text |
| `SqlMask.Reworded` | backend/src/migration_safety.rs:544-604 | any newline-free text of a line comment, any delimiter-free text of a block comment, any text of a literal with its quotes doubled may so replace another |
| `SqlMask.SameLayoutSameMask` | backend/src/migration_safety.rs:544-604 | a replacement of the same length with the same newlines leaves the mask as it was |
| `SqlMask.Statements` | backend/src/migration_safety.rs:611-624 | the fragments lie end to end from the start, each with its only semicolon at its end, and leave out at most a blank tail |
| `SqlMask.StatementsExact` | backend/src/migration_safety.rs:611-624 | a fragment is returned if and only if it is a statement: begun after a semicolon, ended by one or by the end of a non-blank text |
| `SqlMask.LineCountsNewlines` | backend/src/migration_safety.rs:1104 | a line number is one more than the number of newlines before the byte |
| `SqlMask.FragmentLine` | backend/src/migration_safety.rs:1100-1104 | a position in a fragment of the mask is in bounds, the same byte, and on the same line in the original file, counted by its newlines |
| `Phrases.FindPhrase` | backend/src/migration_safety.rs:629-664 | the nested loops compute the leftmost match of the deterministic reading |
| `Phrases.ReadWords` | backend/src/migration_safety.rs:637-655 | the inner loop reads all words with white space between them, or fails as the reading does |
| `Phrases.SpellsFromIffEndFrom` | backend/src/migration_safety.rs:637-655 | skipping white space greedily finds a reading of the words exactly when any choice of gaps gives one, with the same end |
| `Phrases.EndUnique` | backend/src/migration_safety.rs:656-660 | an occurrence has one end |
| `Phrases.FindIsLeftmost` | backend/src/migration_safety.rs:629-664 | a result is a word-bounded, case-insensitive occurrence with none before it; no result means no occurrence at all |
| `Phrases.NoOverlap` | backend/src/migration_safety.rs:733-734 | occurrences of a phrase of word bytes whose first word does not recur never overlap; every phrase searched for is one |
| `Phrases.ScanEnumeratesOccurrences` | backend/src/migration_safety.rs:852-853 | the callers' loop visits every occurrence exactly once, in order |
| `Phrases.CaseIrrelevant` | backend/src/migration_safety.rs:650 | texts that differ in case only have the same matches |
| `Phrases.SkipsExactlyQualifiers` | backend/src/migration_safety.rs:676-695 | white space and whole IF NOT EXISTS, IF EXISTS and ONLY qualifiers are skipped, nothing else, and none is left |
| `Phrases.NameAfterQualifiers` | backend/src/migration_safety.rs:676-700 | the name after white space, after IF NOT EXISTS, IF EXISTS or ONLY is the name behind it; elsewhere it begins there, perhaps behind a quote |
| `Phrases.QuotedSchemaIsTaken` | backend/src/migration_safety.rs:696-712 | of a quoted name the call returns what stands between the quotes, whatever follows |
| `Phrases.QuotedSchemaExample` | backend/src/migration_safety.rs:696-712 | the call on `"s"."t"` returns `s` |
| `Phrases.IdentifierAfter` | backend/src/migration_safety.rs:673-713 | the reader with its loops and recursion computes the identifier of the specification |
| `Phrases.IdentIsLastComponent` | backend/src/migration_safety.rs:699-712 | a name is returned if and only if it is, in lower case, the last component of the dotted name that begins at the position |
| `Phrases.FirstComponentDroppedIff` | backend/src/migration_safety.rs:708-712 | the first component is dropped if and only if a dot stands directly behind it and a word byte begins the next name |
| `Phrases.IdentExact` | backend/src/migration_safety.rs:673-713 | the same for the whole call, after white space, qualifiers and an opening quote |
| `Phrases.ApartNeverMeet` | backend/src/migration_safety.rs:732-834 | phrases that first differ at a word both have are never found at the same place |
| `Phrases.SkipWs` | backend/src/migration_safety.rs:837-844 | the first byte at or after the position that is not white space |
| `DollarQuotes.DollarSpans` | backend/src/migration_safety.rs:865-892 | the scanning loop computes the spans of the specification, an unclosed tag ending the search |
| `DollarQuotes.SpansWellSpaced` | backend/src/migration_safety.rs:865-892 | spans are ordered and in bounds, and each closes at the first repetition of the tag it opens with |
| `DollarQuotes.SpacedPairwise` | backend/src/migration_safety.rs:865-892 | of any two spans the earlier ends before the later starts |
| `DollarQuotes.ListedIff` | backend/src/migration_safety.rs:865-892 | a span is listed if and only if it is a tag in bytes (a dollar sign, word bytes or none, a dollar sign), a body and the first repetition of the tag, and every tag before it lies in an earlier span |
| `DollarQuotes.FirstBodyFound` | backend/src/migration_safety.rs:874-889 | the first body of any text, whatever its tag, the empty one included, is found |
| `DollarQuotes.FirstStatementCounts` | backend/src/migration_safety.rs:919-936 | a plain statement counts unless it is blank, and what follows its semicolon counts as it would alone |
| `DollarQuotes.TopLevelStatementCount` | backend/src/migration_safety.rs:919-936 | the loop counts the non-blank pieces between semicolons outside every span |
| `DollarQuotes.WalkCounts` | backend/src/migration_safety.rs:919-936 | the count equals that of a walk that jumps over each body without looking inside |
| `DollarQuotes.FoundSpansAreQuoted` | backend/src/migration_safety.rs:881-889 | every span found is quoted by a tag, so the next theorem applies to all of them |
| `DollarQuotes.BodyIrrelevant` | backend/src/migration_safety.rs:919-936 | replacing the body of any span by text in which its tag does not occur earlier leaves the statement count unchanged |
| `Targets.TargetOfAlter` | backend/src/migration_safety.rs:849-861 | the loop computes the table named after the last ALTER TABLE it accepts |
| `Targets.AlterTargetIsNearest` | backend/src/migration_safety.rs:846-848 | that is the occurrence nearest before the position, among all occurrences |
| `Targets.AlterExact` | backend/src/migration_safety.rs:849-861 | a table is attributed if and only if a nearest ALTER TABLE exists and names it |
| `Targets.AtOnceExact` | backend/src/migration_safety.rs:735-737 | the search for CONCURRENTLY hits at the next non-blank byte exactly if CONCURRENTLY occurs there |
| `Targets.TargetOf` | backend/src/migration_safety.rs:733-832 | the loop bodies find the table of a match as their rule says |
| `Targets.TargetExact` | backend/src/migration_safety.rs:733-832 | each rule in terms of occurrences: when a match has a table, and which |
| `Targets.AlterMeansAlter` | backend/src/migration_safety.rs:759-764 | the guard of the TYPE loop is implied by the attribution |
| `Classifier.OpenerHits` | backend/src/migration_safety.rs:732-744 | one search loop reports one hit per visited match that has a table |
| `Classifier.OpenerExact` | backend/src/migration_safety.rs:732-744 | the loop of an opener reports exactly its aimed occurrences |
| `Classifier.OpenerReportsOnce` | backend/src/migration_safety.rs:732-744 | it reports each of them once, in the order of the text |
| `Classifier.CollectVolatile` | backend/src/migration_safety.rs:780-801 | the ADD COLUMN part, with its loop over the volatile calls |
| `Classifier.VolatileExact` | backend/src/migration_safety.rs:780-801 | it reports exactly a first ADD COLUMN whose first later DEFAULT has a volatile call, in any case, after it |
| `Classifier.Classify` | backend/src/migration_safety.rs:727-835 | the loops of `classify`, in order, compute the list of the specification |
| `Classifier.ClassifyExact` | backend/src/migration_safety.rs:727-835 | for every fragment and hit: reported if and only if the phrases that occur say so |
| `Classifier.ClassifiedOnce` | backend/src/migration_safety.rs:727-835 | no hit is reported twice |
| `Classifier.BlockingIndexExact` | backend/src/migration_safety.rs:730-744 | a blocking index is reported exactly at each CREATE [UNIQUE] INDEX that CONCURRENTLY does not follow at once, on the table named after the next ON |
| `Classifier.ConstraintExact` | backend/src/migration_safety.rs:746-756 | a validating constraint is reported exactly at each ADD CONSTRAINT that no NOT VALID follows, on the table of the nearest ALTER TABLE |
| `Classifier.RetypeExact` | backend/src/migration_safety.rs:758-768 | a column rewrite exactly at each TYPE, on the table of the nearest ALTER TABLE |
| `Classifier.SetNotNullExact` | backend/src/migration_safety.rs:770-777 | exactly at each SET NOT NULL, on the table of the nearest ALTER TABLE |
| `Classifier.VolatileDefaultExact` | backend/src/migration_safety.rs:779-801 | a volatile default exactly at a first ADD COLUMN whose first later DEFAULT has one of the four volatile calls behind it |
| `Classifier.BackfillExact` | backend/src/migration_safety.rs:803-820 | an unbounded backfill exactly at each UPDATE or DELETE FROM of a statement without LIMIT and LOOP, on the table named next |
| `Classifier.RewriteExact` | backend/src/migration_safety.rs:822-832 | a table rewrite exactly at each CLUSTER, VACUUM FULL or REINDEX that no CONCURRENTLY follows, on the name that comes next |
| `Classifier.BatchedIsNoBackfill` | backend/src/migration_safety.rs:803-820 | a statement with LIMIT or LOOP is never an unbounded backfill |
| `MigrationGate.RoutineSpans` | backend/src/migration_safety.rs:904-915 | a span is listed if and only if it is a dollar-quoted body whose text since the last semicolon names FUNCTION or PROCEDURE |
| `MigrationGate.InsideRoutines` | backend/src/migration_safety.rs:989-990 | a byte is excluded if and only if it lies in such a body |
| `MigrationGate.TablesCreated` | backend/src/migration_safety.rs:940-952 | a table is in the set if and only if a CREATE [UNLOGGED] TABLE names it |
| `MigrationGate.CreatesInText` | backend/src/migration_safety.rs:940-952 | a file creates a table exactly where a CREATE [UNLOGGED] TABLE names it |
| `MigrationGate.Findings` | backend/src/migration_safety.rs:1086-1119 | one finding for each blocking statement on a hot, pre-existing table outside every routine body, no other and none twice, statement by statement, with its line in the original file |
| `MigrationGate.FindingsMean` | backend/src/migration_safety.rs:1086-1119 | a finding is in the list exactly if a statement of the masked file blocks writers there on a hot table that no CREATE [UNLOGGED] TABLE of the file names, outside every function or procedure body |
| `MigrationGate.FindingsCounted` | backend/src/migration_safety.rs:1127-1150 | the findings of a kind on a table are as many as its gated occurrences, which is what the allowlist counts |
| `MigrationGate.NoteStatement` | backend/src/migration_safety.rs:993-1002 | noting adds exactly the hot-table entries outside routine bodies, each once |
| `MigrationGate.NotedMeans` | backend/src/migration_safety.rs:989-1001 | an entry is noted exactly if its table is hot and some statement has such an occurrence outside every function or procedure body |
| `MigrationGate.ChangesExact` | backend/src/migration_safety.rs:1003-1028 | what needs a lock_timeout: UPDATE, DELETE FROM or INSERT INTO with a later SELECT on the table named next, or CREATE [OR REPLACE, CONSTRAINT] TRIGGER on the table named after ON |
| `MigrationGate.TogglesExact` | backend/src/migration_safety.rs:1029-1041 | what is forbidden: DISABLE or ENABLE [ALWAYS, REPLICA] TRIGGER, on the table of the nearest ALTER TABLE |
| `MigrationGate.TimeoutFindings` | backend/src/migration_safety.rs:987-1051 | forbidden if and only if a hot-table trigger toggle is noted; otherwise unbounded if and only if a backfill or trigger is noted and no lock_timeout is set; the lists hold exactly the noted entries, without repetition |
| `SecretPeriod.RepeatingUnitLen` | backend/src/config.rs:2777-2781 | the search loop finds the first period of at most half the length, or the whole length |
| `SecretPeriod.SecretIsUnitRepeated` | backend/src/config.rs:2774-2776 | every secret is its unit repeated, the last copy possibly cut short |
| `SecretPeriod.PeriodDifference` | backend/src/config.rs:2777-2781 | two periods that fit side by side differ by a period (Fine and Wilf) |
| `SecretPeriod.PeriodsAreMultiples` | backend/src/config.rs:2777-2781 | every period of at most half the length is a multiple of the unit's length |
| `SecretPeriod.UnitIsPrimitive` | backend/src/config.rs:2777-2781 | the unit is not a shorter word written several times |
| `SecretPeriod.UnitOfCycle` | backend/src/config.rs:2777-2781 | a word that is no such power, written out at least twice, is found again as the unit |
| `SecretPeriod.EstimateSeesWholeAlphabet` | backend/src/config.rs:2794-2844 | the unit and the secret have the same characters, so the alphabet estimate and the distinct count agree on both |
| `SecretPeriod.PureAlphabets` | backend/src/config.rs:2806-2820 | digits count 10, hexadecimal digits of either case 16, letters of one case 26 |
| `SecretPeriod.MixedAlphabets` | backend/src/config.rs:2806-2844 | letters of both cases with digits count 62, with base64 symbols 64, with any other character 95 |
| `SecretPeriod.WeakIff` | backend/src/config.rs:2753-2772 | a secret is weak exactly if it is empty, counts up or down by one throughout, or is estimated too low over its unit's length and the whole secret's alphabet and characters |
| `SecretPeriod.RepetitionAddsNothing` | backend/src/config.rs:2753-2772 | however often a repeated unit is written out, the low-entropy verdict is the same, whatever the estimate and threshold |
| `Retry.RetryInitialConnect` | backend/src/db.rs:193-232 | the number of calls is the first that ends the loop, its result is returned, failures are counted once each, the sleeps add up |
| `Retry.RetryIsBounded` | backend/src/db.rs:193-232 | at most max(1, attempts) calls, every retry starts strictly before the deadline, every call but the last failed, sleeping stays below the deadline |
| `Retry.BackoffDoubles` | backend/src/db.rs:116-120 | the unjittered backoff starts at one second, doubles up to eight, and stays there |
| `Retry.SleepRange` | backend/src/db.rs:116-120 | the backoffs of n >= 4 calls add up to between 500(8n-25) and 1500(8n-25) milliseconds |
| `Retry.RetryOnDeadlock` | backend/src/db.rs:289-319 | the first outcome that is no deadlock is returned, or the third one, and no call follows it |
| `TestSurface.CountTests` | backend/src/ci_test_surface.rs:128-167 | the flag-carrying loop over a file's lines counts the functions whose preceding run of attribute, comment and blank lines holds a test mark, apart by whether it holds an ignore mark |
| `TestSurface.TestsCountedOnce` | backend/src/ci_test_surface.rs:150-157 | every marked function is counted once, and as ignored only if there is an ignore mark |
| `TestSurface.OneLine` | backend/src/ci_test_surface.rs:133 | a text without newlines is one line, with or without its end |
| `TestSurface.LinesJoin` | backend/src/ci_test_surface.rs:133 | a file may be split into lines at any newline |
| `TestSurface.MarksExact` | backend/src/ci_test_surface.rs:134-145 | a line is a test or ignore mark exactly if its attribute name, read to its full length, is `test`, `tokio::test` or `ignore` |
| `TestSurface.FunctionsExact` | backend/src/ci_test_surface.rs:146-160 | a line is a function exactly if, after indentation, it starts with one of the four prefixes; a filler exactly if it is blank or a comment |
| `TestSurface.SolidClears` | backend/src/ci_test_surface.rs:158-163 | a line clears the marks above it exactly if it is no attribute, comment or blank |
| `TestSurface.IndentIrrelevant` | backend/src/ci_test_surface.rs:134 | indentation does not matter |
| `TestSurface.OrderIrrelevant` | backend/src/ci_test_surface.rs:128-167 | reordering the lines of such a run changes no count |
| `TestSurface.CountsAdd` | backend/src/ci_test_surface.rs:128-167 | counts add up across a split after any function line or other line that clears the marks |
| `TestSurface.FilesAdd` | backend/src/ci_test_surface.rs:128-167 | so do the counts of a file cut behind the newline of such a line |

## Left out

- PostgreSQL itself: a statement is its effect on the ledger rows, the named schema objects, the index states or the user table; types, data and query plans are not modelled.
- The migrator is assumed to be sqlx's: ascending versions, a mismatch of a recorded checksum stops it, a migration is recorded after its SQL succeeded. Failed rows (`success = false`) and its own internals are not modelled.
- In OverlappingBoots the migrator compares each recorded checksum when it comes to it and walks of several boots may interleave; sqlx reads the ledger once under its lock. Rows 73 to 75 are always there, so no walk touches what the theorems speak of. Upgrade15x has the lock and the single read.
- In Upgrade15x the two earlier repairs of a boot are left out; on these ledgers they find nothing to do (`EarlierRepairsIdle`, `HealthyLedgerUntouched`).
- Later migrations are assumed not to drop the objects of slots 73 to 75.
- SHA-384 is a value with equality; that the detection checksums are pairwise distinct is a hypothesis of the theorems that need it.
- Advisory lock keys are distinct locks: collisions of `hashtext` or of lock keys are not modelled.
- Provisioning: other uses of the user table and the volume happen only while no replica holds the provisioning lock; the password policy's verdict and the resolution of `_FILE` variables are parameters; the storage directory, the log banner and file permissions are left out.
- Provisioning: a deleted password file together with a crash while regenerating it is outside OneHashAndItsFile, which lets nobody else edit.
- The excerpt text of a finding, which is for display, is left out.
- The concrete tables of the gate (HOT_TABLES, ALLOWLIST, the timeout rule's first version) are data; the theorems hold for every set of hot tables.
- SqlMask.SkipBlock: comment nesting depth is unbounded; the source counts it in 32 bits, which only a text with over four thousand million nested openers could exceed.
- SecretPeriod: the logarithm in the entropy estimate is floating point and a parameter here; that the verdict uses it only through length, alphabet size and distinct count is modelled.
- Retry: durations are real numbers on an ideal clock, and metrics are one counter; logging and the connection itself are left out.
- The jittered pause of `retry_on_deadlock` changes no outcome and is left out.
- Configuration parsing, error mapping, server wiring, identity providers, storage back ends, package formats and the HTTP API are not part of this model.
