# Verified models of BAC Nexus

Dafny models of the parts of BAC Nexus that keep state through failures, and of the text and byte algorithms whose
exact output matters, with proofs of what they promise. One module models one component. `dafny verify dfyconfig.toml`
verifies all of them.

| module | component |
|---|---|
| `OwnershipLedger` | the SQLite ledger of remote temporaries: admission with ambiguous commits, deletion, listing |
| `RecoveryPath` | where an acquisition puts a temporary, and which paths recovery is willing to remove |
| `SourceAcquire` | the admit, create, copy, confirm, delete protocol and its recovery |
| `SourceSnapshot` | line index and paging of an immutable member |
| `SnapshotLeases` | the lease store: quota, readers, hiding, expiry, zeroing |
| `MapepireProtocol`, `MapepireBudget`, `MapepireOverrun`, `MapepireClient` | the multiplexed client as a state machine, its cursor budgets, the runs that pass them, and the object whose mutex regions are the machine's steps |
| `JarActivation` | installation of the server JAR with backup and rollback |
| `CredentialVault` | rotation of a vault by hard links, recovery, deletion |
| `OnboardingCommit` | the onboarding saga with its compensators |
| `WrapText` | wrapping of wizard text |
| `Utf8`, `BoundedRead` | well-formed UTF-8 (sections 3 and 4 of RFC 3629), and bounded reading of a stream |
| `StreamDecoder`, `SourcePage` | the streaming text decoder, and paging of a file that arrives in chunks |
| `StrictJson` | the duplicate-key JSON cursor (grammar of sections 2, 6 and 7 of RFC 8259) |
| `FallbackTickets`, `Step8Service` | single-use SSH fallback tickets and the service that issues and consumes them |
| `AuditLog` | the newline-framed audit log and its recovery |

## How failures are modelled

Every file, database, network or collaborator operation draws its own arbitrary fault: it succeeds, fails without
effect, and where the component allows it fails after its effect or partly done. A crash is an outcome that ends the
operation at once, so a postcondition holds after a crash at any step. A ghost counter `troubles` counts faults;
"no fault, so success" is stated as `troubles == old(troubles) ==> ...`. Runs of several calls, each of which may fail
or crash, are covered by invariants that every method needs and keeps, or by lemmas over all event sequences.

## What the proofs found

Properties that do not hold as documented are stated with the exact condition under which they do, and with an input or
a run that shows the failure.

- Recovery refuses for ever the row of an acquisition whose cleaned home is the root or holds a backslash, a line break
  or a NUL, although the acquisition accepts such a home; and since every acquisition starts with a recovery, that row
  blocks all later ones (`RecoveryPath.AdmittedPathIsRecoverable`, `SourceAcquire.AdmittedRowIsRecoverable`,
  `RecoveryPath.RootHomeIsNeverRecovered`).
- Registering a request while the reader waits for a frame keeps the cursor budgets of a Mapepire session, in every
  continuation that goes on the same way, if and only if every unanswered call on its cursor may share it: a close
  beside a close, or a charging call beside a charging request on a cursor whose count leaves no room for a last page
  (`MapepireOverrun.RegisterExactly`, `MapepireOverrun.FullCursorIsSafe`). Otherwise a server can drop the cursor with
  the first answer and bring it back, from zero, with the second. Callers that use only cursors they were told of reach
  a ninth cursor that way (`MapepireOverrun.UndisciplinedRunPassesLimit`), or more than 1 MiB
  (`MapepireOverrun.SecondRequestBreaksBudget`, `MapepireOverrun.UndisciplinedRunPassesBudget`).
- `Store.Delete` ignores the failure to remove the rollback. Its success is final exactly when there was no rollback;
  otherwise the next recovery can put the deleted envelope back (`CredentialVault.DeleteIsFinalWithoutRollback`).
- An onboarding run reported as undone has left no trace exactly when every compensator is set and neither the profile
  nor the pin step can fail after its effect (`OnboardingCommit.UndoneExactly`).
- Wrapping counts the separator twice when it decides whether a word fits. A word behind a separator stays on its line
  exactly when it leaves a free cell there, or fills the line as its first word or as one too wide for a fresh line
  (`WrapText.StaysExactly`); so two words that would exactly fill a line do not share it, "ab cd" at width 5 for one
  (`WrapText.ExactFillMoves`, `WrapText.ExactFillMovesHere`).
- `parseStrictJSON` never returns for a bare number, `true`, `false` or `null` unless white space follows it
  (`StrictJson.CheckedExactly`).
- Whether a page of a chunked file is refused as too large depends on the chunks: it is served exactly when its pages
  fit and no chunk ends behind an unfinished line over the limit before the page is complete (`SourcePage.ReadPage`).
  The same file is served in one chunk and refused in two (`SourcePage.ChunkingDecides`,
  `SourcePage.ChunkingDecidesHere`); its content never depends on the chunks.
- A first audit record that was cut before its newline makes every later recovery fail (`AuditLog.TornAppend`).
- A repair truncates the newest segment before it writes it back. Recovery keeps every terminated record exactly when
  that write is not cut inside them, and a cut needs no crash: the recovery after it succeeds
  (`AuditLog.AuditFile.Recover`, `AuditLog.CutRepairLoses`, `AuditLog.LosingRun`). Over whole runs, an acknowledged
  record stays on disk until it expires unless an opening's repair of the newest segment is cut in front of it, and if
  such openings meet no other fault it stays exactly when there is none (`AuditLog.RunKeeps`).
- An SSH run that is reported as a success has written its marker exactly when the runtime closed cleanly and the marker
  store is set and writes; without a clean close it is still reported as `proof_success`, and a failed marker write
  comes after the success has been audited (`Step8Service.SshExactly`, `Step8Service.SuccessWithoutMarker`,
  `Step8Service.AuditedThenFailed`).

## Model

| member | source | states |
|---|---|---|
| OwnershipLedger.Ledger.AdmitAttempt | internal/ownership/sqlite/ledger.go:345-392 | one transaction stores the exact record or leaves the table alone; only a table with room for it is ever written; after an attempted commit only busy, an error or a crash is possible besides success |
| OwnershipLedger.Ledger.ReadbackExactRecord | internal/ownership/sqlite/ledger.go:405-421 | a readback that succeeds says exactly whether the record itself is stored |
| OwnershipLedger.Ledger.Admit | internal/ownership/sqlite/ledger.go:276-307 | at most five attempts; nil only if the exact row is stored, whatever the commits reported; the table changes by nothing but that row, and stays within 64 rows; without faults one attempt is enough; unless a readback or a wait fails, it reports busy only after five attempts, and when every attempt got as far as its COMMIT it ends before the fifth only stored or by a crash |
| OwnershipLedger.Ledger.Delete | internal/ownership/sqlite/ledger.go:309-343 | removes the row only when every column matches the record; nil only if it did |
| OwnershipLedger.Ledger.ListRecovery | internal/ownership/sqlite/ledger.go:227-256 | names every row once; never fails for capacity on a table built by Admit and Delete |
| OwnershipLedger.StoreTwice | internal/ownership/sqlite/ledger.go:276-307 | a retry after a commit that took effect stores nothing new |
| RecoveryPath.CleanRender | internal/source/ownership.go:185-193 | cleaning a rendered absolute path gives its elements back |
| RecoveryPath.SplitExactly | internal/source/acquire.go:228-233 | the pieces of a path are the only slash-free ones that joined by slashes give it |
| RecoveryPath.CleanRules | internal/source/acquire.go:228-233 | joining a home cleans it by the rules of path.Clean: an empty piece or "." is dropped wherever it stands, ".." goes away with the element in front of it or alone at the root, canonical elements are left alone |
| RecoveryPath.ByteLengthIs | internal/source/ownership.go:186-186 | the length that is limited to 1024 is that of the path in UTF-8 |
| RecoveryPath.AdmittedPathIsRecoverable | internal/source/ownership.go:185-193 | the path an acquisition admits is one recovery removes if and only if the cleaned home is not the root, holds no forbidden character, and the path is within 1024 bytes |
| RecoveryPath.RootHomeIsNeverRecovered | internal/source/acquire.go:228-233 | a root home is accepted by an acquisition and its temporary is refused by recovery |
| SourceAcquire.Remote.RemoveConfirmed | internal/source/acquire.go:171-184 | success only if the file is gone |
| SourceAcquire.NamedWithoutRow | internal/source/acquire.go:145-161 | deleting the row of a place without a file leaves every other file named |
| SourceAcquire.ListedHead | internal/source/ownership.go:74-101 | the recovery loop meets each listed row as it is stored, and what remains is what is left of the table |
| SourceAcquire.AdmittedRowIsRecoverable | internal/source/ownership.go:103-202 | an admitted row can be recovered if and only if its home and profile are acceptable, the profile still names the same target, and it was not created within the second of the zero time |
| SourceAcquire.Acquirer.RecoverRow | internal/source/ownership.go:103-154 | the row is deleted only after its file is confirmed gone; every file stays named after any failure or crash |
| SourceAcquire.Acquirer.Recover | internal/source/ownership.go:74-101 | success means an empty ledger and no temporary left, and every row was recoverable; without faults it succeeds exactly then |
| SourceAcquire.Acquirer.Cleanup | internal/source/acquire.go:145-169 | nil only if the file is gone and its row deleted |
| SourceAcquire.Acquirer.Fetch | internal/source/acquire.go:99-130 | the bytes read are the whole file, within 4 MiB, although a download may end early |
| SourceAcquire.Acquirer.AcquireAdmitted | internal/source/acquire.go:88-143 | behind an admitted row: a snapshot only of the requested member, which is well-formed UTF-8 within 4 MiB, with the temporary gone and the row deleted |
| SourceAcquire.Acquirer.Acquire | internal/source/acquire.go:51-143 | every existing temporary is named by a row whatever fails; a snapshot is returned only for a servable request and with the ledger and the remote empty; without faults every servable request succeeds |
| SourceAcquire.RunHistory | internal/source/acquire.go:51-143 | any sequence of acquisitions and recoveries, each failing or crashing anywhere, keeps every temporary named and hands out only requested members |
| SourceSnapshot.RecordsAreLines | internal/source/snapshot.go:65-84 | no record holds a newline, and only an empty rest has no record |
| SourceSnapshot.RecordsRebuild | internal/source/snapshot.go:65-84 | the records and the final newline rebuild the member |
| SourceSnapshot.NewSnapshot | internal/source/snapshot.go:65-84 | the offset loop indexes exactly the records; only malformed UTF-8 is refused |
| SourceSnapshot.FillPage | internal/source/snapshot.go:99-124 | the page loop takes as many records as the greedy rule allows |
| SourceSnapshot.PageAt | internal/source/snapshot.go:87-125 | the page and every refusal are those of the specification over the member's records |
| SourceSnapshot.PageIsMaximal | internal/source/snapshot.go:87-125 | a served page fits, starts at the requested line, holds consecutive records, names the next line, and stops only at the end, at maxLines or where the next record would overflow |
| SourceSnapshot.PageRefusals | internal/source/snapshot.go:87-125 | a request is invalid exactly outside its ranges, out of bounds exactly behind the last line, too large exactly when its first record alone overflows; an empty member has one page, without lines |
| SourceSnapshot.FollowCollects | internal/source/snapshot.go:87-125 | following NextStartLine ends and collects every remaining record once and in order |
| SourceSnapshot.FollowCollectsMember | internal/source/snapshot.go:87-125 | following from line 1 rebuilds the member, for every choice of page limits |
| SnapshotLeases.LeaseStore.Acquire | internal/source/lease.go:154-180 | a lease within the quota, with a private copy of the bytes, or a refusal that changes nothing |
| SnapshotLeases.LeaseStore.OpenReader | internal/source/lease.go:199-228 | exactly which cursors open a reader and which are expired; one more holder and a refreshed expiry |
| SnapshotLeases.LeaseStore.Lookup | internal/source/lease.go:230-250 | the bound selection, or the refusal in the order of the checks; nothing is refreshed |
| SnapshotLeases.LeaseStore.Page | internal/source/lease.go:252-267 | a page through an open reader is the page of the bytes originally acquired, whatever was evicted or restarted; it refreshes the expiry, through a closed reader nothing |
| SnapshotLeases.LeaseStore.CloseReader | internal/source/lease.go:269-285 | idempotent; retires exactly when the last reader leaves a hidden or expired lease; expiry and hiding stay as they were |
| SnapshotLeases.LeaseStore.Retire | internal/source/lease.go:287-295 | never while a reader is open and never twice; frees the quota and zeroes every byte |
| SnapshotLeases.LeaseStore.Evict | internal/source/lease.go:297-316 | hides the lease, retires it at once when unread, touches no other |
| SnapshotLeases.LeaseStore.EvictAll | internal/source/lease.go:318-329 | every remaining lease is hidden and read, all others are retired |
| SnapshotLeases.LeaseStore.Restart | internal/source/lease.go:331-347 | a new epoch, also without entropy, and exactly the unread leases are retired |
| SnapshotLeases.LeaseStore.Accounts | internal/source/lease.go:154-295 | the resident sum is within the quota, the count of a lease is the number of its unclosed readers, no lease is retired twice, and none while a reader of it is unclosed |
| SnapshotLeases.Reachable | internal/source/lease.go:154-347 | the same in every state that any sequence of calls leads a new store to |
| SnapshotLeases.Step | internal/source/lease.go:154-347 | any call of other parties, their own pages and closes included, keeps the store's invariant and closes no other reader |
| SnapshotLeases.ReadAfter | internal/source/lease.go:252-267 | after any sequence of acquisitions, opens, lookups, pages, closes, evictions and restarts of other parties a page through an open reader is the page of the bytes originally acquired |
| SnapshotLeases.TotalWithout | internal/source/lease.go:287-295 | removing one lease lowers the resident sum by its size, in whatever order the sum is taken |
| MapepireProtocol.StepInv | internal/mapepire/typed_session.go:54-276 | every mutex region, channel operation and return keeps the invariant |
| MapepireProtocol.OwnResponsesOnly | internal/mapepire/typed_session.go:54-181 | in every interleaving at most 64 calls are pending, and a success that Call returns or will find in its channel carries its own ID, reports no error and has no row that is too wide |
| MapepireProtocol.AcceptedExactly | internal/mapepire/typed_session.go:81-95 | a response to a pending call stops the session with the error of the limits or of the statement exactly when it is beyond the one or reports the other; any other is accepted, its cursor growing by it or going with the last page or the close |
| MapepireProtocol.DeliveredExactly | internal/mapepire/typed_session.go:96-100 | an accepted response reaches the channel of its call and takes its entry away, and nothing else changes |
| MapepireProtocol.DrainNeverBlocks | internal/mapepire/typed_session.go:262-276 | every channel that fail sends on under the mutex is empty |
| MapepireBudget.StepBudget | internal/mapepire/typed_session.go:235-261 | every step of a disciplined run keeps the cursor budgets |
| MapepireBudget.WaitingIsDisciplined | internal/mapepire/typed_session.go:102-181 | a run in which callers wait for their earlier successes on a cursor is disciplined |
| MapepireBudget.DisciplineKeepsBudgets | internal/mapepire/typed_session.go:54-261 | when unanswered calls share a request's cursor only if both are closes, or both charge it and it is full: at most 8 cursors, and no response is about to be delivered once its cursor was charged more than 1 MiB since registration |
| MapepireOverrun.RegisterExactly | internal/mapepire/typed_session.go:123-154 | while the reader waits for a frame, registering a request keeps the budgets in every disciplined continuation if and only if every unanswered call on its cursor may share it |
| MapepireOverrun.SecondRequestPassesLimit | internal/mapepire/typed_session.go:144-148 | from every state with a waiting reader in which one may not, some disciplined continuation, without further requests on cursors, opens a ninth |
| MapepireOverrun.SecondRequestBreaksBudget | internal/mapepire/typed_session.go:235-261 | a charging request beside another one for whose last page there is room, or beside a close of a charged cursor, lets some continuation deliver past 1 MiB |
| MapepireOverrun.UndisciplinedRunPassesLimit | internal/mapepire/typed_session.go:54-181 | a run from a new session, in which calls name only cursors whose query has returned, reaches nine cursors |
| MapepireOverrun.UndisciplinedRunPassesBudget | internal/mapepire/typed_session.go:54-261 | such a run is about to deliver a response past 1 MiB |
| MapepireOverrun.FullCursorIsSafe | internal/mapepire/typed_session.go:235-261 | a query answered by one frame of 1 MiB, then two Mores at a time: every disciplined continuation keeps the budgets |
| MapepireClient.Client.Register | internal/mapepire/typed_session.go:123-154 | the registration region refuses in the order of its checks, and otherwise steps the machine |
| MapepireClient.Client.Lookup | internal/mapepire/typed_session.go:81-87 | the lookup region is the machine's step |
| MapepireClient.Client.AcceptResponse | internal/mapepire/typed_session.go:235-261 | the charge, the limit and the drop in place are the machine's step |
| MapepireClient.Client.RemoveEntry | internal/mapepire/typed_session.go:96-98 | the delete region is the machine's step |
| MapepireClient.Client.DrainPending | internal/mapepire/typed_session.go:263-273 | the loop empties pending and tells every pending call once |
| MapepireClient.Client.Fail | internal/mapepire/typed_session.go:262-276 | runs once; is the machine's drain |
| MapepireClient.ToldStep | internal/mapepire/typed_session.go:263-273 | each round tells one call that no earlier round told |
| JarActivation.Preserve | internal/connectors/ibmi/mapepirestdio/artifact.go:488-526 | the backup is an exact copy, or it is gone again |
| JarActivation.Activate | internal/connectors/ibmi/mapepirestdio/artifact.go:348-381 | after any failure or crash an installed JAR is at the target or the backup, or the target holds the expected one |
| JarActivation.Confirm | internal/connectors/ibmi/mapepirestdio/artifact.go:362-380 | a target that does not match after the rename is replaced by the backup |
| JarActivation.Finish | internal/connectors/ibmi/mapepirestdio/artifact.go:296-381 | with the deferred removals: success leaves the target and no scratch; a single fault leaves the old installation or the new |
| JarActivation.EnsureServerJar | internal/connectors/ibmi/mapepirestdio/artifact.go:235-381 | at every crash point an installed JAR survives; nil means the target matches and nothing else changed; a single fault ends in the old state or the new |
| CredentialVault.VaultFiles.Recover | internal/credential/vault.go:286-307 | however it ends, later recoveries reach the same state; when it completes the files are that state |
| CredentialVault.VaultFiles.Rotate | internal/credential/vault.go:262-283 | after any failure or crash the files stand for the new envelope exactly when the log holds its link, and for the old one otherwise |
| CredentialVault.VaultFiles.Publish | internal/credential/vault.go:223-284 | the same for a whole publication, recovery first; without faults the vault holds the data and no scratch remains |
| CredentialVault.RotateAndRecover | internal/credential/vault.go:223-307 | after a rotation that may crash anywhere and recoveries that may crash anywhere, a completed one leaves no rollback, and the new envelope exactly when the log holds its link, the old one otherwise |
| CredentialVault.MeaningIsRecovered | internal/credential/vault.go:286-307 | recovery is idempotent and leaves no rollback |
| CredentialVault.DeleteIsFinalWithoutRollback | internal/credential/vault.go:206-221 | a reported deletion is final for all faults if and only if there was no rollback |
| OnboardingCommit.Commit.RollBackWrites | internal/profile/onboarding_commit.go:102-115 | the compensators run in reverse order and each due one is tried whatever the others do |
| OnboardingCommit.Commit.Compensate | internal/profile/onboarding_commit.go:102-128 | what compensation leaves and reports; the journal is reached only when everything due was put back |
| OnboardingCommit.Commit.Run | internal/profile/onboarding_commit.go:39-87 | for every set of callbacks and every fault: the answer, the world and the order of callbacks are the closed form by first failure; the callbacks reached are the steps up to that failure, every compensator that is due and nothing else, and the world, also of a run that reports CleanupRequired, is what those of them that worked made of it; the journal is cleared exactly after full success or full compensation |
| OnboardingCommit.UndoneExactly | internal/profile/onboarding_commit.go:39-128 | undone runs leave no trace for all faults if and only if compensators are complete and the profile and pin steps cannot fail after their effect |
| OnboardingCommit.SavedExactly | internal/profile/onboarding_commit.go:39-87 | Saved is reported exactly when no step and no journal write failed, and then every step took effect |
| OnboardingCommit.JournalClearedOnlyWhenWhole | internal/profile/onboarding_commit.go:81-128 | a run that reaches its journal has saved everything or put everything back |
| WrapText.FieldsOfJoin | internal/tui/wrap.go:32-37 | words joined by single spaces split into the same words |
| WrapText.FieldsExactly | internal/tui/wrap.go:31-31 | some words are those of a paragraph if and only if white space, not empty between two of them, makes the paragraph of them |
| WrapText.SolidFields | internal/tui/wrap.go:31-31 | without white space the words of a paragraph are the paragraph |
| WrapText.ParagraphsRejoin | internal/tui/wrap.go:26-26 | the paragraphs are the text cut at its newlines |
| WrapText.Chunk | internal/tui/wrap.go:69-76 | the longest leading part of a word that fits |
| WrapText.Break | internal/tui/wrap.go:41-69 | closing a line loses nothing, and the break was needed |
| WrapText.PlaceWord | internal/tui/wrap.go:37-101 | the loop ends, by remaining word, pending separator and non-fresh line, places the whole word, and where it goes is the specification's |
| WrapText.StaysExactly | internal/tui/wrap.go:38-49 | a word behind a separator is put whole on the open line if and only if it leaves a free cell, or has cells and exactly fills the line as its first word or as one too wide for a fresh line; otherwise that line is closed |
| WrapText.MovesWhole | internal/tui/wrap.go:40-49 | a word that moves and fits a fresh line goes there whole, its separator staying behind |
| WrapText.WrapParagraph | internal/tui/wrap.go:27-105 | every line fits and is headed by prefix or indent, removing them gives back the words joined by single spaces, and so without white space the paragraph itself; every break was needed, and every word is where it goes |
| WrapText.Wrap | internal/tui/wrap.go:13-107 | the whole text is one such group of lines for each paragraph; only the first line carries the prefix |
| WrapText.ExactFillMoves | internal/tui/wrap.go:38-49 | every wrapping of two words that would exactly fill one line takes two |
| WrapText.ExactFillMovesHere | internal/tui/wrap.go:38-49 | "ab cd" at width 5 is wrapped to "ab " and "cd" |
| Utf8.ConcatValid | internal/source/retrieve.go:129-150 | well-formed texts concatenate |
| Utf8.ValidExactly | internal/source/retrieve.go:134-148 | a text is well formed if and only if it encodes Unicode scalar values, six bits to a tail byte |
| Utf8.BoundaryIsLast | internal/source/retrieve.go:134-141 | between the last rune boundary and a limit no prefix is valid, and the distance is under four bytes |
| Utf8.StraddlingRune | internal/source/retrieve.go:142-147 | the rune at the boundary reaches past the limit |
| BoundedRead.CutBytes | internal/source/retrieve.go:130-148 | the search over four bytes more than the limit finds the last boundary, and fails exactly when the bytes up to the limit are malformed |
| BoundedRead.CutLines | internal/source/retrieve.go:152-165 | the longest prefix within the line limit, cut between runes |
| BoundedRead.LinesAreRecords | internal/source/retrieve.go:152-169 | the line count of a text is the number of its newline-terminated records and of an unterminated rest |
| BoundedRead.ReadBounded | internal/source/retrieve.go:129-172 | the longest whole-rune prefix within both limits, its line count, truncated exactly when it is a proper prefix, and an error exactly for malformed bytes |
| BoundedRead.ValidIsReadable | internal/source/retrieve.go:129-151 | a well-formed stream never errors, at any limit |
| StreamDecoder.ScannedOfValid | companion/vscode-codefori/src/sourceAcquisition.ts:117-119 | of a well-formed text cut anywhere the decoder holds back at most the rune that was cut |
| StreamDecoder.Decoder.Decode | companion/vscode-codefori/src/sourceAcquisition.ts:116-120 | however the bytes come in, what has come out is their whole runes without a leading byte order mark; it fails exactly when no rune can continue what is held back |
| StreamDecoder.DecodedOfValid | companion/vscode-codefori/src/sourceAcquisition.ts:110-130 | a well-formed file comes out whole but for a byte order mark at its start |
| StreamDecoder.MarkIsDropped | companion/vscode-codefori/src/sourceAcquisition.ts:110-110 | behind one byte order mark, an encoded U+FEFF, exactly the text comes out, whatever well-formed text it is |
| SourcePage.PageReader.AddLine | companion/vscode-codefori/src/sourceAcquisition.ts:151-157 | skips to the start line, then adds a line, and refuses only a text that does not fit |
| SourcePage.PageReader.ConsumeLines | companion/vscode-codefori/src/sourceAcquisition.ts:138-149 | takes every finished line in order; an early page is the page, and more text follows it |
| SourcePage.ReadChunk | companion/vscode-codefori/src/sourceAcquisition.ts:115-125 | one chunk keeps decoder and reader in step with the file; it stops with a page or a refusal exactly as the whole chunking deserves |
| SourcePage.ReadPage | companion/vscode-codefori/src/sourceAcquisition.ts:109-163 | for every split into chunks an ok page shows the decoded file: cut at its newlines its content is the lines from startLine on, lineCount of them, and nextLine the number of the line behind them; eof exactly when no line follows, within the byte limit; a well-formed file is served if and only if its pages fit and every chunk may end where it does, and refused as too large otherwise |
| SourcePage.LinesAre | companion/vscode-codefori/src/sourceAcquisition.ts:138-149 | the lines of a file are its newline-separated records, each without one carriage return at its end |
| SourcePage.PageShows | companion/vscode-codefori/src/sourceAcquisition.ts:160-163 | joined by newlines the lines of a page are read back by cutting at newlines, in order and all of them |
| SourcePage.ChunkingDecides | companion/vscode-codefori/src/sourceAcquisition.ts:115-125 | a long first line is skipped when it arrives with its newline, and refused when a chunk ends right behind it |
| SourcePage.ChunkingDecidesHere | companion/vscode-codefori/src/sourceAcquisition.ts:115-125 | three hundred letters, a limit of two hundred and pages a hundred bytes larger than their content are such a case |
| SourcePage.ShortStretchesSuffice | companion/vscode-codefori/src/sourceAcquisition.ts:115-125 | without a stretch over the limit every chunking is served |
| StrictJson.JSONCursor.ReadObjectHere | companion/vscode-codefori/src/protocol.ts:358-383 | the loop with its key set reads what the specification of the cursor reads |
| StrictJson.JSONCursor.ReadArrayHere | companion/vscode-codefori/src/protocol.ts:385-402 | the same for arrays |
| StrictJson.JSONCursor.ReadStringHere | companion/vscode-codefori/src/protocol.ts:404-419 | the same for strings |
| StrictJson.JSONCursor.ReadPrimitiveHere | companion/vscode-codefori/src/protocol.ts:421-430 | the same for primitives; at the end of the text it does not stop |
| StrictJson.StringEndAt | companion/vscode-codefori/src/protocol.ts:404-419 | the scan over a well-formed string ends right behind its closing quote, escapes included |
| StrictJson.ReadPrimitiveAt | companion/vscode-codefori/src/protocol.ts:421-430 | a number or literal is read to its end if something that stops the loop follows, and hangs at the end of the text |
| StrictJson.NumberExactly | companion/vscode-codefori/src/protocol.ts:421-430 | a number is exactly what the productions of the JSON grammar give |
| StrictJson.DecodedOfWriting | companion/vscode-codefori/src/protocol.ts:404-419 | a text written unit by unit, raw where that is allowed, as a short escape, or as four hexadecimal digits of either case, is decoded to itself |
| StrictJson.WritingOfDecoded | companion/vscode-codefori/src/protocol.ts:404-419 | every string body that has a meaning is one of the writings of that meaning |
| StrictJson.SameKeyExactly | companion/vscode-codefori/src/protocol.ts:359-372 | two well-formed keys are the same if and only if they are writings of the same text |
| StrictJson.EscapedKeyRepeats | companion/vscode-codefori/src/protocol.ts:359-372 | every object with a one-letter key and the same letter written as four hexadecimal digits of any case is refused for repeating it |
| StrictJson.RepeatsFromIs | companion/vscode-codefori/src/protocol.ts:359-372 | the growing key set finds a repetition exactly when the decoded keys are not distinct |
| StrictJson.ReadValueAt | companion/vscode-codefori/src/protocol.ts:340-356 | on every rendered value, at any depth: throws exactly when an object in it repeats a decoded key, and otherwise ends exactly behind it |
| StrictJson.CheckedExactly | companion/vscode-codefori/src/protocol.ts:314-323 | for every well-formed text: accepted at its end unless a key repeats; a bare primitive hangs exactly when nothing follows it |
| StrictJson.ParseStrict | companion/vscode-codefori/src/protocol.ts:314-323 | the cursor object computes that verdict |
| FallbackTickets.TicketStore.Issue | internal/configuration/step8.go:203-226 | refused exactly for an invalid claim, no entropy or an older generation; otherwise a fresh ticket replaces whatever its profile had |
| FallbackTickets.TicketStore.Consume | internal/configuration/step8.go:228-241 | accepts exactly a live, unexpired ticket with its exact claim, never twice, and only for the profile's latest generation |
| FallbackTickets.TicketStore.Cancel | internal/configuration/step8.go:243-254 | removes exactly the records of the claim |
| FallbackTickets.TicketStore.Supersede | internal/configuration/step8.go:256-270 | removes exactly the older records of the profile; latest never decreases |
| Step8Service.SshOpenedOnce | internal/configuration/step8_service.go:116-157 | in every run of the service SSH opens at most once for a ticket, and only for the profile, request, generation and reason it was issued for after an eligible observation |
| Step8Service.SoundSnoc | internal/configuration/step8_service.go:66-213 | a sound event added to a sound run keeps the guarantees over the run |
| Step8Service.Service.PassGates | internal/configuration/step8.go:314-354 | policy, trust, consent and credential pass in that order or the call stops at the first that does not; it goes on exactly when the answers pass all four |
| Step8Service.Service.OpenAndProve | internal/configuration/step8_service.go:136-152 | SSH is opened right behind the consumed ticket and the four gates; result and events are decided by the collaborators' answers; the credential is zeroed however it ends |
| Step8Service.Service.ProveSsh | internal/configuration/ssh_runtime.go:132-161 | result and events as the runtime answers: success only with valid proof metadata, clean only after a close |
| Step8Service.SshExactly | internal/configuration/step8_service.go:132-171 | a success is reported exactly for a valid proof without a failed marker write; the marker is written exactly behind a clean close with a marker store that writes; the audit record speaks of success whatever the marker write does |
| Step8Service.SuccessWithoutMarker | internal/configuration/step8_service.go:153-155 | the answers under which a success has no marker |
| Step8Service.AuditedThenFailed | internal/configuration/step8_service.go:156-168 | the answers under which an audited success is reported as a failed cleanup |
| Step8Service.Service.RecordSuccess | internal/configuration/step8_service.go:156-170 | the marker follows a valid proof and a clean close; the result fails exactly when it could not be written |
| Step8Service.Service.RunSSH | internal/configuration/step8_service.go:116-171 | nothing without SSH consent; never observes or issues; it gets behind its gates exactly when consent, ticket, wiring and the gates' answers allow; there result, events and audit are those of the collaborators' answers, in front of them it is never a success; one audit record for each call |
| Step8Service.Service.RunWss | internal/configuration/step8_service.go:173-213 | credential zeroed and session closed before a marker; success exactly for a valid proof, a close and no failed marker write, and otherwise the outcome of the first check that failed |
| Step8Service.Service.Run | internal/configuration/step8_service.go:66-114 | nothing without consent; never opens SSH; a ticket exactly when consent and checks pass, the observation agrees with its reason and makes SSH eligible, and the store accepts the claim; WSS selected exactly for a valid proof, a close and no failed marker write; otherwise terminal with the outcome of the first check that failed; one audit record for each call |
| Step8Service.Service.Observe | internal/configuration/step8_service.go:87-114 | the same from the observation on |
| AuditLog.CleanConcat | internal/audit/file.go:359-368 | valid newline-framed records concatenate |
| AuditLog.CleanExactly | internal/audit/file.go:359-368 | data is accepted exactly when it is what some disk records make, one line each |
| AuditLog.TornAppend | internal/audit/file.go:331-358 | a write cut anywhere can be repaired if and only if it was not the first record of its segment, and the repair gives back what was there before |
| AuditLog.CheckRecords | internal/audit/file.go:359-368 | accepts exactly newline-terminated valid records |
| AuditLog.AuditFile.WriteDurably | internal/audit/file.go:209-219 | appends the whole record, or on a fault some prefix of it, to the day's segment and nothing else |
| AuditLog.AuditFile.Record | internal/audit/file.go:197-221 | an acknowledged record is whole on disk; every storage fault poisons the sink; a poisoned or closed sink refuses and writes nothing; without faults it succeeds exactly when there is room |
| AuditLog.AuditFile.Close | internal/audit/file.go:468-482 | afterwards no record is accepted |
| AuditLog.AuditFile.ValidateSegment | internal/audit/file.go:322-369 | accepts exactly clean segments, and of the newest also one whose unterminated tail can be dropped; terminated records stay unless the rewrite is cut inside them |
| AuditLog.AuditFile.RecoverSegment | internal/audit/file.go:288-310 | one round validates, repairs and records, and removes what is older than the cutoff; however it ends, terminated records from the cutoff on stay unless the rewrite of the newest segment is cut inside them |
| AuditLog.AuditFile.Recover | internal/audit/file.go:257-312 | success leaves exactly the recovered directory: the newest segment without its unterminated tail, the repair recorded, clean segments dated cutoff to today; however it ends, it keeps every terminated record from the cutoff on if and only if no rewrite was cut inside them; without other faults the files and the fault of the rewrite decide success and loss |
| AuditLog.AuditFile.Reopen | internal/audit/file.go:61-95 | a new sink is usable exactly after a recovery that succeeds, and does to the files exactly what recovery does |
| AuditLog.RecoveryKeeps | internal/audit/file.go:257-312 | what the finished rounds mean for records, dates and framing |
| AuditLog.AcknowledgedIsWhole | internal/audit/file.go:197-221 | an acknowledged record ends its segment, which holds nothing torn |
| AuditLog.CutRepairLoses | internal/audit/file.go:344-356 | every torn segment with a record, its repair cut inside the records: recovery without other faults leaves what is in front of the cut, the records are lost, and an empty segment is recoverable |
| AuditLog.StepKeeps | internal/audit/file.go:197-312 | one operation after an acknowledgement keeps the record unless it is an opening that cuts it away, and such an opening without other faults loses it |
| AuditLog.RunKeeps | internal/audit/file.go:61-312 | over any run of records, closes and openings, each failing or crashing anywhere, an acknowledged record is whole on disk, and stays there until it expires unless the repair of an opening, decided by the files before it, is cut in front of its end; exactly then, if such openings meet no other fault |
| AuditLog.LosingRun | internal/audit/file.go:61-369 | a run without a crash that loses an acknowledged record and then opens again; its openings meet no fault but that of the rewrite, so the files decide them |
| AuditLog.RunOps | internal/audit/file.go:61-312 | every run of the sink is such a run |

## Left out

- SSH, SFTP, WSS, TLS, HTTP and SQL: abstract operations with arbitrary outcomes; hashes and digests stand for the content they were computed from, random tokens and capabilities are fresh values.
- Paths, permissions, DACLs, keyrings and other operating-system evidence: the checks are part of the operation that may fail.
- Marshaled JSON sizes: an arbitrary function of the page; the JSON encoders themselves are not part of the model.
- Concurrent acquisitions on one ledger: each ends or crashes before the next starts; a remote copy has no effect after it returned.
- OwnershipLedger.Ledger.ListRecovery: does not state the order of the listing (oldest first), on which nothing depends; the parsing of stored columns is not modelled, the CHECK constraints of the table are; a profile's length is counted in characters, its name being ASCII.
- SourceAcquire.Acquirer.RecoverRow: profile resolution, credential retrieval, target binding and the cancellation checks between them are one guard and one operation that may fail.
- SnapshotLeases: interleavings are sequences of whole calls, as the store's mutex makes them; the base64 text of a cursor is either a decoded pair or malformed; a lease's buffer is a field that is overwritten byte by byte.
- SnapshotLeases.LeaseStore.Restart: repeated entropy failure is not modelled.
- MapepireBudget.DisciplineKeepsBudgets: holds for fresh IDs; the cursor that FixedProof inserts for its close is not part of the model.
- MapepireProtocol: sending a frame, decoding it and the session deadline are the events that fail the session; the bytes of a frame are its size, which is at least that of the shortest JSON text of its ID and flags; IDs are strings that stand for 24 characters.
- JarActivation: remote operations take effect or fail unchanged; an operation that fails after its effect is not modelled except for a crash. The local JAR has been verified; artifact stages and modes are not modelled.
- CredentialVault: the envelope is opaque; encryption, parameters and `Get` are not modelled.
- OnboardingCommit: the recorded journal phases and the error values are not modelled, only their order and failure; compensators put back the value from before the run.
- WrapText: runes wider than one cell and terminal escape sequences; with them the branch for an empty chunk, which the model shows unreachable.
- StrictJson: JSON.parse is the grammar for strings and primitives; texts that it rejects never reach the cursor.
- SourcePage: the artifact object with its expiry and disposal; text is the bytes of its UTF-8 form.
- BoundedRead: errors of the reader itself, and the rest of Retrieve.
- FallbackTickets: the clock is an argument of each call.
- Step8Service: calls are taken one after the other; the artifact stage, trace IDs and result validation are not modelled; the SSH factory answers arbitrarily, which covers every path through Open; the cleared marker store is not part of the state, and a marker write that fails counts as not written.
- AuditLog: the date does not change during one call; a crash and a storage fault of a record or a close leave the lock behind, and the model opens the log again as if somebody had removed it; operator configuration and the encoding of events are not modelled; which bytes are a disk record is an arbitrary predicate.
- Command line, screens, localization, release tooling and simple validators: they would add only easy members.
