# Verified models of ThistleOS

These modules model the parts of ThistleOS that have to keep data whole: the bundle
transaction of the Recovery image, the parsers and printers that have to undo each other,
and the smaller state machines around them. `dafny verify dfyconfig.toml` checks all of them.

## What is modelled

**Recovery's bundle transaction.** `Storage` is the device: a flat map from files to
contents, the firmware slot, the persisted security-version floor and the boot selector.
Each operation takes one tick of a clock, and an arbitrary plan says what happens at that
tick: nothing special, a failure (a write can leave any prefix, a tree removal any subset, a
store of the floor may or may not have stored, or may claim to have), or a loss of power.
After a loss of power the rest of the code runs without effect, so whatever a contract says
of a halted device it says of a crash at that point. `Generation` gives the states that an
install or a rollback passes through, and a lemma for each step; `BundleTransaction` has
`install`, `rollback` and `finalize`; `Recovery` is the boot driver; `Lifecycle` runs an
install and any number of boots, all of them interruptible; `FinalizeOrder` says exactly
which interruptions are harmful; `AntiRollback` is the version floor, `BundleAssembly`
derives the files of a bundle from signed manifests, and `Streams` copies bodies and
firmware.

**Texts.** `Journal` and `Paths` (the transaction journal), `Manifest` and `SignTool`
(the signed manifest and the tool that prints it), `JsonObjects` (the brace-matching
iterator), `VaultJson`, `VaultParse`, `VaultRoundTrip` and `VaultFile` (the vault's JSON,
padding, header and envelope), `AssistantRequest` (the two-pass request writer).

**Smaller state machines.** `VaultStore` (replacing the vault file), `TapInstall`
(package generations), `SimQueue` (the simulator's queue), `Pagination`, `RecoverySessions`.

Ciphers, hashes and key derivation are arbitrary functions. The vault asks of them only
that decryption undoes encryption; nothing cryptographic is claimed.

## What the code does not do

Each of these is proved.

- An empty bundle makes `install` write a journal that `read_journal` refuses from then on
  (recovery/src/bundle_transaction.rs:346-348): the install fails, its rollback fails, and
  every later boot fails in the same way (`BundleTransaction.Install`, `Lifecycle.EmptyBundle`).
  Callers never pass one (`BundleAssembly.BundlePathsNeverCollide`).
- `finalize` removes the directory in no particular order. Cut short, it can lose the
  firmware marker before the journal, and the next boot can then produce a mixture.
  `FinalizeOrder.InterruptedFinalize` gives the exact condition and
  `FinalizeOrder.FinalizeCanMixGenerations` a case. The removal after a rollback needs no
  order at all (`Generation.CleanupInAnyOrder`).
- When the boot selector fails with both flags true and the power then goes during the
  rollback, the firmware marker is still there and the next boot finalizes a half undone
  install. `FinalizeOrder.InterruptedUnwinding` gives the exact condition,
  `FinalizeOrder.UnwindingCanMixGenerations` a case, and `Lifecycle.Run` carries it through
  whole runs; losses of power alone never get there. That both cases occur is
  `FinalizeOrder.MixturesOccur`.
- The signing tool signs firmware without boards, which every device refuses
  (`SignTool.DeviceReadsSignedManifest`). A device reads exactly what was asked for only when
  there is a board and no board name holds a comma (`SignTool.PlainBoardsReadBack`). A board
  with one comma is refused, or, when the two halves are boards in ascending order, accepted
  as two boards (`SignTool.TwoBoardsForOne`).
- The vault's parser takes the first `}` for the end of an object. Saving and loading keeps
  the entries exactly when no entry but the last is printed with a `{` after a `}`, or there
  are 32 of them, all those after the first such entry are equal, and that entry agrees with
  them in every field that is printed from its first stray `{` on: then what is read too often
  finds no room (`VaultRoundTrip.RoundTripIffSeparable`; `VaultRoundTrip.SavedExample` is such
  a list).
- The copy of a vault that is only in its backup is removed by the next save exactly when the
  recovery rename returned an error at the start and the next three steps work
  (`VaultStore.FirstUse`).
  A save leaves it there exactly when its second rename and the rename back both return errors
  (`VaultStore.SaveEnvelope`). Without these nothing is ever lost (`VaultStore.Boots`).
- The reader shows a white-space character twice where it ends a page at the nominal length
  and the next full page has no other (`Pagination.PagesShowTheText`, `Pagination.ShownTwice`).
- A package install that moved its generation into place and was then stopped, or failed and
  could not remove it, leaves a generation because of which the same sequence is refused from
  then on. `TapInstall.LeavesGeneration` is the exact condition
  (`TapInstall.AppDir.Install`, `TapInstall.InstallAgain`), and
  `TapInstall.BlockedByItsOwnRemains` such a run.

## Model

| member | source | states |
|---|---|---|
| Lifecycle.Run | recovery/src/bundle_transaction.rs:114-268 | After an install cut off anywhere and any number of boots, each cut off anywhere, once the journal is gone all destinations are old or all new and every other file outside the two reserved directories is as before; all-new only with the firmware marker and the firmware written and both flags true; only then are removals asked to take the journal first. With losses of power alone, a newer version and the floor really stored there is no exception; otherwise, where the rollback of a failed selector was cut off with the marker still there, the outcome is whole exactly when that was harmless. The install succeeds for an installable bundle unless a fault strikes; a last boot without faults always gets there |
| Lifecycle.EmptyBundle | recovery/src/bundle_transaction.rs:346-348 | An empty bundle without any fault: install and rollback fail, a transaction is left, and no boot recovers |
| Lifecycle.BootRepeatedly | recovery/src/recovery_ota.rs:1631-1650 | Any number of interruptible boots keep an undoable state undoable, with removals in any order, and a decided one as it is; a boot without faults ends the transaction |
| Lifecycle.AfterInstall | recovery/src/bundle_transaction.rs:133-234 | However an install ended, it left a state that the boots keep |
| Lifecycle.AfterBoots | recovery/src/bundle_transaction.rs:114-131 | In a kept state without a journal the files are the old generation, or the new one where both flags are true, or what a rollback cut off before had made of them |
| BundleTransaction.Install | recovery/src/bundle_transaction.rs:133-234 | Success only for distinct, present, non-empty files and a newer version, and for those always unless a fault strikes; then every bundle file holds its inline data or what its source held, every other file is as before, originals are in the backup, the selector was called last and once, with the floor at the candidate; failure: the old generation and no journal; a failed rollback of an installable bundle takes two faults or a loss of power, and leaves a state recovery can take over, or one of the exact cut-off states; a rollback that nothing strikes leaves no trace, and whether the power was lost before it is told by the plan; with an open transaction no file, nor the firmware, the floor or the selector is touched; the firmware is written at most once, after everything is in place, and without that (an empty, ambiguous or incomplete bundle, a fault before the journal) nothing that decides the next boot changes; a raised floor stays raised; an empty bundle leaves an unreadable journal, always unless a fault strikes |
| BundleTransaction.NewIsInPlace | recovery/src/bundle_transaction.rs:133-234 | In the new generation each file of the bundle has its inline data or the contents its source had, and all others are as before |
| BundleTransaction.OperateOrRollBack | recovery/src/bundle_transaction.rs:189-233 | Either everything is installed and selected, or the rollback brought back the old generation and removed the directory, or what is left is recoverable; for a newer version it is the first unless a fault strikes; power was lost before the rollback exactly when the plan says so |
| BundleTransaction.Operate | recovery/src/bundle_transaction.rs:189-220 | The marker is only there with every destination new; the selector is called at most once, after the marker, with the new floor |
| BundleTransaction.Activate | recovery/src/bundle_transaction.rs:189-215 | Up to the selector every state is restorable and the firmware marker implies that all is installed |
| BundleTransaction.ActivateAll | recovery/src/bundle_transaction.rs:191-205 | The activation loop, stopped anywhere, leaves a restorable state; completed, everything is installed |
| BundleTransaction.ActivateEntry | recovery/src/bundle_transaction.rs:191-205 | One round activates exactly the next entry, and every point inside it is restorable |
| BundleTransaction.Prepare | recovery/src/bundle_transaction.rs:159-187 | Staging touches nothing outside the transaction directory and ends with the journal of this bundle, or without any; distinct and present files are refused only because of a fault, and the duplicate error only for duplicate destinations |
| BundleTransaction.StageAll | recovery/src/bundle_transaction.rs:159-173 | The staging loop: all files staged and distinct, or an error for a duplicate, a missing source or a fault |
| BundleTransaction.StageFile | recovery/src/bundle_transaction.rs:162-172 | Staging one more file extends the staged part by it and records whether an original was there |
| BundleTransaction.StagedIsInstalling | recovery/src/bundle_transaction.rs:159-187 | Everything staged plus the journal is the start state of the activation |
| BundleTransaction.ChangeIsRecorded | recovery/src/bundle_transaction.rs:278-350 | The journal that is written reads back as the entries of this change |
| BundleTransaction.WriteJournal | recovery/src/bundle_transaction.rs:278-303 | Writing under a temporary name and renaming yields the whole journal or none |
| BundleTransaction.WritePhase | recovery/src/bundle_transaction.rs:352-362 | The marker holds its text, or a part of it after a failure, and no other file changes; even half written it keeps the installed and restorable state |
| BundleTransaction.StageContents | recovery/src/bundle_transaction.rs:393-402 | On success the target holds the given contents; nothing else changes |
| BundleTransaction.ParseContents | recovery/src/bundle_transaction.rs:305-350 | The reading loop computes the specification of the journal parser, errors included |
| BundleTransaction.ParseLines | recovery/src/bundle_transaction.rs:326-345 | The loop over the entry lines: flags, paths and duplicates as specified |
| BundleTransaction.ReadJournal | recovery/src/bundle_transaction.rs:305-350 | Succeeds exactly when a readable journal is there, with its entries and the phase of the markers |
| BundleTransaction.ChooseAction | recovery/src/bundle_transaction.rs:114-128 | Nothing exactly without a journal; finalize exactly when the marker is there and both flags are true; otherwise rollback; an unreadable journal is an error |
| BundleTransaction.RollBack | recovery/src/bundle_transaction.rs:236-260 | From any restorable state it restores the old generation and removes the directory, or leaves a state to start from again; cut off, it is in one of the named states |
| BundleTransaction.RestoreAll | recovery/src/bundle_transaction.rs:243-257 | The reverse loop keeps every state restorable and equals the entry-by-entry specification |
| BundleTransaction.RestoreEntry | recovery/src/bundle_transaction.rs:243-257 | One round restores exactly its entry; cut off, its destination is untouched or cleared |
| BundleTransaction.OneMoreRestored | recovery/src/bundle_transaction.rs:243-257 | Restoring from the back is the same as restoring the first entry last |
| BundleTransaction.FinalizeTransaction | recovery/src/bundle_transaction.rs:262-268 | The transaction directory is gone, or a part of it, and nothing else changed |
| Generation.BackupStep | recovery/src/bundle_transaction.rs:196-200 | Moving an original to its backup goes from pending to backed up and keeps all other entries |
| Generation.ActivateStep | recovery/src/bundle_transaction.rs:202-204 | Moving the staged file into place activates the entry and keeps all others |
| Generation.InstallingIsRestorable | recovery/src/bundle_transaction.rs:189-220 | Every point of an install can be undone |
| Generation.MarkersAreLoose | recovery/src/bundle_transaction.rs:352-362 | Marker files have no part in what can be undone |
| Generation.LooseFilesDoNotMatter | recovery/src/bundle_transaction.rs:236-260 | Installing, restorable and rewinding states depend only on the journal, the entries' own cells and the user's files |
| Generation.ClearStep | recovery/src/bundle_transaction.rs:243-257 | Removing a destination before its backup comes back keeps everything undoable; for a file that was new it restores the entry |
| Generation.RestoreStep | recovery/src/bundle_transaction.rs:248-253 | Renaming the backup back restores the entry and keeps the ones after it restored |
| Generation.SkipStep | recovery/src/bundle_transaction.rs:243-257 | An entry that the rollback skips is already as before |
| Generation.RewoundIsOld | recovery/src/bundle_transaction.rs:236-260 | With all entries restored the files are exactly the old ones |
| Generation.CleanupInAnyOrder | recovery/src/bundle_transaction.rs:236-260 | After the restore loop, any partial removal of the directory leaves the old generation, from which a new rollback starts afresh |
| FinalizeOrder.InterruptedFinalize | recovery/src/bundle_transaction.rs:262-268 | For every set of removed files: the next boot ends in one of the two generations if and only if the interruption is harmless by a condition on the journal, the marker and the needed backups |
| FinalizeOrder.JournalFirstIsHarmless | recovery/src/bundle_transaction.rs:262-268 | A removal that takes the journal before the marker is harmless wherever it stops |
| FinalizeOrder.FinalizeCanMixGenerations | recovery/src/bundle_transaction.rs:262-268 | Two replaced files and a concrete removed set after which the next boot leaves one new and one old |
| FinalizeOrder.CutOffGeneration | recovery/src/bundle_transaction.rs:236-260 | A rollback from the installed state, cut off with any number of entries left, is of one generation if and only if the two do not differ on one of the two sides and nothing was just cleared |
| FinalizeOrder.CutOffInCleanup | recovery/src/bundle_transaction.rs:236-260 | Cut off in the removal after the loop, the files are old |
| FinalizeOrder.InterruptedUnwinding | recovery/src/bundle_transaction.rs:114-128 | With both flags true the boot after such a cut-off ends in one of the generations if and only if it was harmless |
| FinalizeOrder.UnwindingCanMixGenerations | recovery/src/bundle_transaction.rs:114-128 | A concrete bundle of two files for which it was not |
| FinalizeOrder.TwoAreInstalled | recovery/src/bundle_transaction.rs:133-234 | Files in which that bundle is installed |
| FinalizeOrder.MixturesOccur | recovery/src/bundle_transaction.rs:236-268 | For these files both counterexamples hold without any hypothesis |
| FinalizeOrder.FinalizeDecides | recovery/src/bundle_transaction.rs:114-128 | With marker and flags a boot keeps the generation it finds; with a flag false it always restores the old one |
| FinalizeOrder.RestorableRounds | recovery/src/bundle_transaction.rs:243-257 | The rollback loop run to its end restores every entry, from any restorable state |
| Recovery.RecoverInterruptedBundle | recovery/src/recovery_ota.rs:1631-1650 | A boot keeps reverting states reverting and decided ones decided with the same user files; success leaves neither a transaction nor a download directory; only a fault makes it fail, or an unreadable journal, which changes nothing |
| Recovery.Resolve | recovery/src/recovery_ota.rs:1631-1643 | Success is exactly the specified resolution of the files found |
| Recovery.FinalizeKeepsDecided | recovery/src/bundle_transaction.rs:262-268 | Any partial removal that does not leave the journal without the marker keeps a decided state and the user's files |
| AntiRollback.AdvanceBeforeActivation | recovery/src/anti_rollback.rs:34-49 | The floor only moves up to the candidate; the selector is called only with the persisted floor equal to the candidate; success means floor raised and selected; a newer candidate fails only because of a fault or of a store that did not happen; a device without power is untouched |
| AntiRollback.RequireNewer | recovery/src/anti_rollback.rs:15-29 | Accepts only a non-zero candidate above the loaded floor, which is zero where none was stored, and refuses such a one only because of a fault |
| AntiRollback.AdvanceRuns | recovery/src/anti_rollback.rs:6-49 | Over any attempts with any faults the floor never decreases and the versions the selector is called for strictly increase, each with its own version as the floor; every attempt has a result and a standing before and after it, and a newer candidate fails only because of a fault or of a store that did not happen |
| BundleAssembly.Assemble | recovery/src/recovery_ota.rs:1450-1540 | Fills the download directory and nothing else; succeeds only with one firmware, distinct destinations, valid ids and verified payloads, and with these always unless a fault strikes; then it returns the files of all artifacts, whose parts are all downloaded |
| BundleAssembly.FilesOfArtifact | recovery/src/recovery_ota.rs:1480-1528 | For one artifact exactly these files: payload, manifest and signature at the destination of all but firmware, the same three as the board copy for a board, and manifest and signature as the firmware copy for firmware, each copied from its own download |
| BundleAssembly.DerivedMeaning | recovery/src/recovery_ota.rs:1480-1528 | Which parts of an artifact go under which names, for each type |
| BundleAssembly.AllDerivedMeaning | recovery/src/recovery_ota.rs:1456-1528 | Of all selected artifacts every part is taken, and nothing else |
| BundleAssembly.DownloadArtifact | recovery/src/recovery_ota.rs:1467-1507 | The payload, the canonical manifest and the signature of one artifact are written to files of their own; a payload that is not the signed one is refused |
| BundleAssembly.DownloadsApart | recovery/src/recovery_ota.rs:1467-1507 | No two parts of any artifacts are downloaded to the same file |
| BundleAssembly.BundlePathsNeverCollide | recovery/src/recovery_ota.rs:1456-1528 | Every bundle so assembled is non-empty, its paths are pairwise different, valid and outside the reserved directories |
| BundleAssembly.PathTellsPart | recovery/src/recovery_ota.rs:1456-1528 | A derived path determines both the destination it came from and which part it is |
| BundleAssembly.ProperKeysDiffer | recovery/src/bundle_transaction.rs:364-384 | Normalized path texts that name the same file are the same text |
| BundleAssembly.InstallSelected | recovery/src/recovery_ota.rs:1429-1557 | From selected manifests to the installed generation: done means that all payloads were the signed ones, that each selected artifact has its payload, manifest and signature at its destination, the board also in its copy and the firmware its manifest and signature, that every other file is as before, that the firmware written is the payload of the one firmware selected and the floor its version; an error leaves firmware, floor, selector and all files but downloads as they were, a failure the files, a failed rollback a state recovery resolves; a complete bundle with a newer version fails only because of a fault |
| BundleAssembly.PartsAreInPlace | recovery/src/recovery_ota.rs:1456-1557 | When all derived parts are installed, each artifact is in place by type and every file that is no part of one is as before |
| BundleAssembly.CountsOne | recovery/src/recovery_ota.rs:1429-1455 | Where one artifact of a type is counted there is exactly one, at some place in the selection |
| Journal.JournalRoundTrip | recovery/src/bundle_transaction.rs:278-350 | Every list of distinct valid paths reads back with flags and in order; the empty list is written but refused |
| Journal.AcceptedJournals | recovery/src/bundle_transaction.rs:305-350 | A text is read as these entries if and only if its lines are the version, the phase and theirs, there is one at least, and their paths are valid and different |
| Journal.OneEntryText | recovery/src/bundle_transaction.rs:278-303 | The text of a journal of one entry, byte by byte |
| Paths.ValidPathStaysBelowRoot | recovery/src/bundle_transaction.rs:364-384 | A validated path names something below the root, by plain components only |
| Paths.SameSpellings | recovery/src/bundle_transaction.rs:364-384 | A repeated slash and a dot component inside a path make no difference to which file is named |
| Paths.RefusedSpellings | recovery/src/bundle_transaction.rs:364-384 | Refused: absolute paths, parent components, a leading dot component, the empty path, tabs and line breaks |
| Text.SplitJoin | recovery/src/artifact_manifest.rs:50-94 | Splitting what was joined gives the pieces back |
| Text.JoinSplit | recovery/src/artifact_manifest.rs:50-94 | Joining what was split gives the text back |
| Manifest.PrintThenParse | recovery/src/artifact_manifest.rs:50-124 | Every manifest of valid shape is read back from its canonical text |
| Manifest.ParseThenPrint | recovery/src/artifact_manifest.rs:50-124 | Every accepted text is the canonical text of what was read, which has valid shape |
| Manifest.AcceptedTexts | recovery/src/artifact_manifest.rs:50-124 | The accepted texts are exactly the canonical texts of manifests of valid shape |
| Manifest.CanonicalIsInjective | recovery/src/artifact_manifest.rs:96-124 | Two different manifests are never signed as the same text |
| Manifest.CanonicalText | recovery/src/artifact_manifest.rs:96-124 | The canonical text, line by line |
| Manifest.AcceptedDestinations | recovery/src/artifact_manifest.rs:206-213 | What an accepted manifest has for its type and its destination |
| Manifest.VersionMeaning | recovery/src/artifact_manifest.rs:234-250 | A version is accepted exactly when it is three numbers with dots between, with or without a `v` in front |
| Manifest.CheckBoards | recovery/src/artifact_manifest.rs:173-180 | The loop over the boards with its previous board decides as specified, with the same error |
| Manifest.BoardsMeaning | recovery/src/artifact_manifest.rs:173-180 | It accepts exactly strictly sorted lists of valid identifiers |
| Manifest.ShapeMeaning | recovery/src/artifact_manifest.rs:158-203 | The chain of checks accepts exactly the manifests of valid shape |
| Manifest.LessIsTransitive | recovery/src/artifact_manifest.rs:173-180 | The order of board names is transitive |
| Manifest.LessIsTotal | recovery/src/artifact_manifest.rs:173-180 | Different board names are ordered one way or the other |
| Manifest.LessMeaning | recovery/src/artifact_manifest.rs:173-180 | One name comes before another exactly when it ends, or has the smaller byte, where the two first differ |
| Decimal.ParsePrint | recovery/src/artifact_manifest.rs:50-94 | A printed number is read back if and only if it is in range |
| Decimal.PlaceValue | recovery/src/artifact_manifest.rs:96-124 | Digits are printed in base ten, the units last |
| Decimal.OtherSpellings | recovery/src/artifact_manifest.rs:50-94 | A plus sign and leading zeros are accepted, a minus sign and nothing at all are not |
| SignTool.SortedSetMeaning | tools/sign.py:112-133 | The boards come out strictly sorted and are the same set |
| SignTool.SignerAccepts | tools/sign.py:102-133 | When exactly the tool signs: its checks, and at least one board except for firmware |
| SignTool.DeviceReadsSignedManifest | tools/sign.py:112-133 | A signed text is accepted on the device if and only if numbers fit, there is a board and the shape is valid; then every field but the boards is that of the arguments |
| SignTool.PlainBoardsReadBack | tools/sign.py:112-133 | The device reads a signed text as exactly the arguments, boards sorted and deduplicated, if and only if there is a board, no name holds a comma, the numbers fit and the shape is valid |
| SignTool.TwoBoardsForOne | tools/sign.py:112-133 | A signed text with one board with a comma is accepted if and only if the shape with the two halves as boards is valid, which takes them in ascending order; then it is read as these two |
| JsonObjects.JsonObjects.Next | recovery/src/recovery_ota.rs:1121-1161 | Returns the next object and moves behind it, or nothing; the remaining source strictly shrinks |
| JsonObjects.MeasureObject | recovery/src/recovery_ota.rs:1128-1156 | The scan with depth, string and escape state finds the specified length of an object, or none |
| JsonObjects.Collect | recovery/src/recovery_ota.rs:1113-1161 | Calling the iterator until it ends yields the specified list |
| JsonObjects.PiecesInOrder | recovery/src/recovery_ota.rs:1121-1161 | On any text the pieces are disjoint, in order, start and end with braces, and with the gaps give the text |
| JsonObjects.ValueIsNeutral | recovery/src/recovery_ota.rs:1128-1156 | Every JSON value, with braces, quotes and escapes in its strings, leaves the scan at the depth it began at |
| JsonObjects.IteratorIsExact | recovery/src/recovery_ota.rs:1113-1161 | On every array of objects of section 2 of RFC 8259 the iterator yields exactly the texts of the elements, in order |
| VaultJson.JsonEscape | apps/vault/vault/vault_ui.c:231-242 | The escaping loop never overruns its buffer and is exact when the text fits |
| VaultJson.JsonUnescape | apps/vault/vault/vault_ui.c:246-260 | The unescaping loop stops at a quote or a full buffer and computes its specification |
| VaultJson.UnescapeEscape | apps/vault/vault/vault_ui.c:231-260 | Unescaping an escaped field gives the field back |
| VaultJson.UnescapeCut | apps/vault/vault/vault_ui.c:246-260 | An escaped value before a quote, the end of the text or the end of the buffer is read as the value, as far as there is room |
| VaultJson.UnescapeBackslash | apps/vault/vault/vault_ui.c:246-260 | A backslash gives the character behind it, whatever that is, and itself at the end |
| VaultJson.EntriesToJson | apps/vault/vault/vault_ui.c:264-301 | For fields of up to 63 bytes nothing is truncated: the output is the whole JSON and fits the allocation |
| VaultJson.AppendEntry | apps/vault/vault/vault_ui.c:264-301 | One entry is appended whole |
| VaultJson.RoomLeft | apps/vault/vault/vault_ui.c:264-301 | Before each entry there is room for it, its comma and the end |
| VaultJson.PrintAllLength | apps/vault/vault/vault_ui.c:264-301 | The output never exceeds the room computed per entry |
| VaultJson.PlainPrinted | apps/vault/vault/vault_ui.c:264-301 | An entry without quotes and backslashes, byte by byte |
| VaultJson.PrintedLists | apps/vault/vault/vault_ui.c:264-301 | Lists of none, one and two entries |
| VaultParse.JsonToEntries | apps/vault/vault/vault_ui.c:324-367 | The parsing loop computes its specification on every text |
| VaultParse.ReadRound | apps/vault/vault/vault_ui.c:324-367 | One round reads one object and moves behind the next closing brace |
| VaultParse.ObjectMeaning | apps/vault/vault/vault_ui.c:305-367 | On any text an entry is read if and only if all four keys occur, each with the text behind its first occurrence |
| VaultParse.ParseLaws | apps/vault/vault/vault_ui.c:324-367 | What any text gives, from opening to closing brace, with and without either |
| VaultParse.NoNeedleInField | apps/vault/vault/vault_ui.c:305-321 | No key is ever found inside an escaped value, whatever the value contains |
| VaultParse.ReadsWhatWasPrinted | apps/vault/vault/vault_ui.c:305-367 | An object is read as the entry it was printed from, whatever follows |
| VaultParse.KeyInParts | apps/vault/vault/vault_ui.c:264-321 | In a printed entry a key is found where its field begins and nowhere else |
| VaultParse.ParsedAreValid | apps/vault/vault/vault_ui.c:305-367 | Whatever text is parsed, at most 32 entries come out and their fields fit |
| VaultRoundTrip.EntryRead | apps/vault/vault/vault_ui.c:324-367 | From the gap before an entry, that entry is read and parsing goes on behind its first closing brace |
| VaultRoundTrip.StrayRead | apps/vault/vault/vault_ui.c:324-367 | What is read from a stray brace: the fields printed after it, and for the others those of the next entry |
| VaultRoundTrip.SeparableRoundTrip | apps/vault/vault/vault_ui.c:264-367 | Up to 32 separable entries are read back exactly |
| VaultRoundTrip.InseparableAreReadTooOften | apps/vault/vault/vault_ui.c:324-367 | Otherwise an extra entry is read, if there is room |
| VaultRoundTrip.ReadBackAtTheLimit | apps/vault/vault/vault_ui.c:324-367 | Inseparable entries without room for an extra one are read back if and only if all after the first inseparable one are equal and its stray object is read as one of them |
| VaultRoundTrip.RoundTripIffSeparable | apps/vault/vault/vault_ui.c:264-367 | For all lists of up to 32 entries: read back exactly if and only if separable or saved by the limit |
| VaultRoundTrip.SavedExample | apps/vault/vault/vault_ui.c:324-367 | A list of 32 entries that is not separable and is read back |
| VaultRoundTrip.NoClosingBraceIsSeparable | apps/vault/vault/vault_ui.c:324-367 | Entries without a closing brace, or a single entry, are always separable |
| VaultFile.UnpadPad | apps/vault/vault/vault_ui.c:373-396 | Unpadding what was padded gives the data back (section 6.3 of RFC 5652) |
| VaultFile.PadMeaning | apps/vault/vault/vault_ui.c:373-384 | 1 to 16 bytes are added, to a multiple of 16, each of which is their number |
| VaultFile.UnpadMeaning | apps/vault/vault/vault_ui.c:386-396 | The accepted buffers are exactly the paddings of non-empty data |
| VaultFile.Unpad | apps/vault/vault/vault_ui.c:386-396 | The checking loop computes its specification |
| VaultFile.ReadWriteU32 | apps/vault/vault/vault_ui.c:197-209 | Little-endian numbers are read back |
| VaultFile.LittleEndian | apps/vault/vault/vault_ui.c:197-209 | The lowest byte comes first |
| VaultFile.HeaderIsValid | apps/vault/vault/vault_ui.c:211-221 | A written header is accepted; its magic, version and parameters are the given bytes, and salt and vector are found where they were put |
| VaultFile.HeaderMeaning | apps/vault/vault/vault_ui.c:211-221 | The accepted headers, byte by byte |
| VaultFile.SealMeaning | apps/vault/vault/vault_ui.c:625-696 | Where salt, vector, encrypted JSON and code are in a written envelope |
| VaultFile.Open | apps/vault/vault/vault_ui.c:463-619 | The loading code computes its specification in every branch: short file, both formats, wrong password, corrupt data, text behind a NUL |
| VaultFile.OpenedIsAuthentic | apps/vault/vault/vault_ui.c:463-619 | What opens is authentic, in both formats: the last 32 bytes are the code of all before them under the returned key, which the password and the salt in the file give, and the entries are those of the padded JSON that the rest decrypts to with the vector in the file |
| VaultFile.OtherCodeIsRefused | apps/vault/vault/vault_ui.c:463-619 | With any other code, in either format, the file is refused as one with a wrong password |
| VaultFile.RefusedFiles | apps/vault/vault/vault_ui.c:463-540 | Which sizes and headers are refused, and how |
| VaultFile.OpenLegacy | apps/vault/vault/vault_ui.c:463-619 | A legacy file laid out as salt, vector, ciphertext and code opens with its password as legacy, with its salt and key, and with its entries if and only if these are separable or saved by the limit |
| VaultFile.OpenSealed | apps/vault/vault/vault_ui.c:463-696 | An envelope that was sealed opens with the same password to the JSON that went in |
| VaultFile.SaveThenLoad | apps/vault/vault/vault_ui.c:463-696 | For up to 32 entries, saving and loading with the same password gives the same entries, salt and key if and only if they are separable or saved by the limit |
| VaultFile.Load | apps/vault/vault/vault_ui.c:463-623 | A legacy file is written again under a fresh salt and key with the entries it held; exactly when that cannot be done it is not opened |
| VaultFile.OpenedAreValid | apps/vault/vault/vault_ui.c:463-619 | Whatever a file holds, what was read from it can be saved |
| VaultFile.MigrationKeepsEntries | apps/vault/vault/vault_ui.c:463-696 | A migrated vault opens again with the same entries, under the condition of any other saved vault |
| VaultStore.RecoverInterruptedWrite | apps/vault/vault/vault_ui.c:418-430 | Recovery loses nothing; success puts the kept envelope at the vault path; a lone backup stays one exactly when the rename did not work |
| VaultStore.ReplaceVaultFile | apps/vault/vault/vault_ui.c:432-451 | Cut off anywhere, the kept envelope is the old or the new one, whole, and no other file is touched; an error returned means the old one; with the power on it is left alone in the backup if and only if both renames fail; from a lone backup the outcome is given for every plan |
| VaultStore.MoveAside | apps/vault/vault/vault_ui.c:432-438 | The removal of a stale backup and the first rename: done, the old vault is whole in the backup and the new file where it was; else the vault is as it was; no other file is touched |
| VaultStore.MoveIntoPlace | apps/vault/vault/vault_ui.c:439-446 | The second rename and the rename back: the vault is the new file, or the old one, or only in the backup with both errors returned |
| VaultStore.SaveEnvelope | apps/vault/vault/vault_ui.c:682-695 | The same for writing and replacing together; a lone backup is removed if and only if the first three steps work |
| VaultStore.SaveAndFollow | apps/vault/vault/vault_ui.c:625-696 | A save that succeeds commits its envelope, one that returns an error commits nothing, one cut off may have done either; without a fault it succeeds; only two rename errors in a row expose the copy |
| VaultStore.Boot | apps/vault/vault/vault_ui.c:463-696 | A start with any saves, and the log of its attempts: all of them in order up to a loss of power, all successful without a fault; what is kept is the envelope of the last success or of an attempt cut off since, unless the recovery rename or two renames of a save returned errors |
| VaultStore.Boots | apps/vault/vault/vault_ui.c:418-451 | Over any starts, saves, crashes and other failures, with the log of every attempt: without a rename error returned, and more generally without one at a recovery or two in a row, what is kept is exactly the envelope of the last save that succeeded or of one cut off since; a vault once there never goes missing, and is created only where there was none |
| VaultStore.TwoSaves | apps/vault/vault/vault_ui.c:625-696 | One start without faults that saves twice: the second envelope is kept |
| VaultStore.FirstUse | apps/vault/vault/vault_ui.c:463-491 | From a vault only in its backup: recovered if and only if the rename works; else the copy is removed if and only if the rename returned an error and the next three steps work; what recovery would leave then, for every plan |
| VaultStore.FirstUseAfterFailedRecovery | apps/vault/vault/vault_ui.c:463-491 | With that one error and no other the first save replaces the vault |
| AssistantRequest.JsonWriter.Append | components/apps_builtin/assistant/assistant_request.c:18-53 | Appends all of the bytes or fails and stays failed; never outside the buffer |
| AssistantRequest.JsonWriter.AppendJsonString | components/apps_builtin/assistant/assistant_request.c:55-92 | Appends the quoted and escaped text, or fails exactly when there is no room or no text |
| AssistantRequest.JsonWriter.AppendMessage | components/apps_builtin/assistant/assistant_request.c:115-125 | One message, or failure for a missing role or content |
| AssistantRequest.JsonWriter.AppendHistory | components/apps_builtin/assistant/assistant_request.c:115-125 | The history in order, with commas between |
| AssistantRequest.JsonWriter.WriteRequest | components/apps_builtin/assistant/assistant_request.c:94-134 | Succeeds exactly when all texts are there and the request fits; what it then wrote decodes to the model, the system prompt, each message of the history in its place and the user's text last |
| AssistantRequest.Build | components/apps_builtin/assistant/assistant_request.c:136-179 | The write pass never fails after the measuring pass: the body decodes to the model, the system prompt, message by message the history from the first on, and the user's text last; its length is the measured one, with a terminator; no body exactly without memory, with a text missing or a length overflow |
| AssistantRequest.BodyIsReadBack | components/apps_builtin/assistant/assistant_request.c:55-92 | Every escaped text decodes, by section 7 of RFC 8259, to the text |
| AssistantRequest.RequestIsReadBack | components/apps_builtin/assistant/assistant_request.c:94-134 | The request decodes to model, system prompt, the history in order and the user's message |
| AssistantRequest.SentIsReadBack | components/apps_builtin/assistant/assistant_request.c:94-134 | The same for the first `historyCount` messages of a history, by their index |
| AssistantRequest.EscapesUsed | components/apps_builtin/assistant/assistant_request.c:55-92 | Which escape each character is written with |
| TapInstall.AppDir.Install | tools/tap_package.py:304-368 | The step from one state of the application to the next: which outcome, exactly, refused for the record, a downgrade that was not allowed or an existing generation, with everything as it was, and installed if and only if all steps work; installed: the record names the new generation, which holds each entry of the package with its data and nothing else; else the record is unchanged; no other generation is touched; after an exception or stop the new generation is there if and only if LeavesGeneration |
| TapInstall.InstallAgain | tools/tap_package.py:304-368 | After a failed attempt the same package is refused as existing if and only if that attempt left its generation |
| TapInstall.BlockedByItsOwnRemains | tools/tap_package.py:304-368 | A run in which that happens |
| TapInstall.AppDir.Activate | tools/tap_package.py:335-362 | The record is switched only after the whole generation is in place, each entry with its data; where it stops is known to the step |
| TapInstall.InstallRuns | tools/tap_package.py:304-368 | Over any installs with crashes and errors anywhere, every request has its result and its step between two states; the record is that of the last request that was installed, the generation of every one of them is there and holds each entry of its package with its data and nothing else, and without downgrades the sequences strictly increase, equality included |
| TapInstall.ContentsMeaning | tools/tap_package.py:335-343 | Where names are distinct, each is there with its own data |
| SimQueue.RunConserves | simulator/platform/platform_stubs.c:161-247 | In every interleaving of any threads, accepted items are the delivered ones followed by those inside, in order, within the capacity |
| SimQueue.StepProgress | simulator/platform/platform_stubs.c:187-247 | A send with room is accepted and a receive with an item delivers the first one, at the call or at a wake; otherwise they fail or wait, and no step touches the wait of another thread |
| SimQueue.Queue.constructor | simulator/platform/platform_stubs.c:173-185 | A new queue is the empty FIFO |
| SimQueue.Queue.SendSection | simulator/platform/platform_stubs.c:187-217 | The ring does what a bounded FIFO does on a send; a failed or waiting one changes no item |
| SimQueue.Queue.ReceiveSection | simulator/platform/platform_stubs.c:219-247 | The ring does what a bounded FIFO does on a receive |
| SimQueue.Queue.Advance | simulator/platform/platform_stubs.c:187-247 | Every step of every thread, wakes without reason and timeouts included, refines the FIFO |
| SimQueue.Schedule | simulator/platform/platform_stubs.c:161-247 | For any schedule on any capacity the ring delivers what it accepted, in order |
| SimQueue.RingPut | simulator/platform/platform_stubs.c:211-213 | Writing at the head appends to the ring's contents, around its end |
| SimQueue.RingTake | simulator/platform/platform_stubs.c:241-243 | Advancing the tail removes the first item |
| Pagination.CalculatePagination | apps/reader/reader/reader_ui.c:110-158 | The nested loops compute the specified offsets |
| Pagination.ShowPage | apps/reader/reader/reader_ui.c:212-235 | The page is clamped and shows its slice |
| Pagination.PageOffsetBounds | apps/reader/reader/reader_ui.c:110-158 | Offsets stay inside the text, within one page of their nominal place; the last is its end |
| Pagination.NeighbouringOffsets | apps/reader/reader/reader_ui.c:110-158 | Offsets drop by at most one; no slice exceeds two pages and one character |
| Pagination.EveryCharacterIsShown | apps/reader/reader/reader_ui.c:110-235 | Every character is on some page |
| Pagination.PageEnds | apps/reader/reader/reader_ui.c:110-158 | A page ends right behind the last white space of its window, or, without one, where the window began; behind the text there is only its end |
| Pagination.PagesSuffice | apps/reader/reader/reader_ui.c:110-158 | There are as many pages as the length takes, and at least one |
| Pagination.OffsetsDropExactlyWhereRepeated | apps/reader/reader/reader_ui.c:110-158 | An offset drops if and only if white space at the nominal end is followed by a full page without any |
| Pagination.PagesShowTheText | apps/reader/reader/reader_ui.c:110-235 | The pages together are the text if and only if there is no such place, and else longer by their number |
| Pagination.ShownTwice | apps/reader/reader/reader_ui.c:110-235 | A text for which they are not |
| Streams.CopyLimited | recovery/src/bounded_io.rs:85-102 | For any split into reads, success is decided by the length, declared length and limit alone; the whole body is written on success, and never more than the limits |
| Streams.BodyLimit.Observe | recovery/src/bounded_io.rs:24-37 | Accepts exactly while the total is within both limits |
| Streams.WriteOta | recovery/src/recovery_ota.rs:270-351 | Success only if exactly the first bytes of the reader were flashed in order with the expected digest; every read, write, short-input or digest failure aborts the session, a failing end leaves it as it is; without faults success is decided by length and digest alone |
| RecoverySessions.ConstantTimeEq | recovery/src/recovery_auth.rs:71-77 | True exactly on equal byte strings of any lengths |
| RecoverySessions.RecoverySession.Authorize | recovery/src/recovery_auth.rs:28-55 | Accepts exactly a fresh, unexpired session with the right token and a larger nonce; expired exactly when over, replay exactly for a used nonce with the right token, and unauthorized otherwise; expiry clears the token |
| RecoverySessions.RecoverySession.Expire | recovery/src/recovery_auth.rs:57-60 | Nothing but the last nonce survives |
| RecoverySessions.RecoverySession.NextNonce | recovery/src/recovery_auth.rs:66-68 | The smallest nonce that is still accepted, and one that is refused once there is none left |
| RecoverySessions.SessionRun | recovery/src/recovery_auth.rs:28-60 | The answers to any sequence of calls and the final state are those of the call-by-call specification |
| RecoverySessions.GrantedExactly | recovery/src/recovery_auth.rs:28-60 | A call is granted if and only if it is an authorization with the right token and a nonce larger than all granted before, and no call up to it expired the session or saw it expired, whatever the clock does |
| RecoverySessions.GrantedInOrder | recovery/src/recovery_auth.rs:28-60 | Granted nonces strictly increase; nothing is granted after an expiry |
| RecoverySessions.SessionAfter | recovery/src/recovery_auth.rs:28-60 | A session is active after its calls exactly when none of them ended it |

## Left out

- VaultStore.Boots: says nothing of the envelope once a recovery rename, or two renames of one save in a row, returned errors; SaveEnvelope and FirstUse say when it is then lost.
- Lifecycle.Run: with both flags true and the firmware marker left it assumes that a boot's tree removal takes the journal before the marker; InterruptedFinalize gives the exact condition for a single boot.
- BundleTransaction.Install: no destination is taken to be a directory or a path prefix of another; parent directories, directory entries, syncing and FAT are not modelled.
- BundleTransaction.ReadJournal: existence checks are taken to be accurate; the original treats an I/O error in them as absence.
- SimQueue.Queue.SendSection: slots hold whole items; the copying of `item_size` bytes and the computation of deadlines are not modelled.
- TapInstall.AppDir.Install: package validation, signatures and ZIP reading are not modelled; an interrupt from the keyboard counts as a crash.
- VaultFile.Open: a legacy file whose random salt begins with the magic bytes is read as the new format, as in the original; nothing is proved about such files.
- AssistantRequest.Build: one character stands for one byte.
- Whether the firmware slot matches the files after a rollback: there is one slot, and the code promises nothing about it.
- `validate_for_device`, `validate_framing` and the catalog's substring extractors.
- HTTP, WiFi, NVS, the ESP-IDF update calls and other foreign code, except as operations that may fail.
- Ed25519, SHA-256, AES, HMAC, Argon2id and PBKDF2, except as arbitrary functions.
- Sizes on other than 32-bit targets; `usize` is 32 bits wide.
- The kernel's confirmation of a boot enters only as the flag `valid`.
- User interfaces, the WASM runtime, the simulator's devices and the command lines.
