# GoodVibes daemon: verified models

Dafny models of the parts of the GoodVibes daemon whose correctness rests on an argument rather than on
reading one function: the import-cycle gate, the inbox mirror and its paging, the two passes that replace an
older systemd unit, the text transforms that have to be undone, and the small step protocols around saving,
rewinding, calling and testing. `dafny verify dfyconfig.toml` checks the whole project.

| file | what it models |
|---|---|
| `ImportGraph`, `ImportCycles`, `CycleReport` | Tarjan's search over the import graph, as a class holding the search's variables; what it reports; the printed chain |
| `InboxFeed`, `InboxUpsert`, `InboxStore` | the mirror's table and feed order, batches, and the store class |
| `InboxProviders`, `InboxPaging`, `InboxAggregator` | one listing with its provider statuses, and walks from page to page over a changing table |
| `JsText`, `PageCursor`, `Secrets` | UTF-16 strings, decimal, UTF-8, base64url; the page cursor; the literal-secret wrapper |
| `InertText`, `InertMarkup` | the per-channel escapers and what undoes them |
| `ServiceHost`, `LegacyReconcile`, `LegacyMigration` | a host with an unreliable systemctl; the unattended pass; the consented migration |
| `SqliteSave`, `ConversationRewind`, `DaemonWsCall`, `TestPool` | save by rename; undo and redo of rewinds; one answer per verb call; the worker pool |
| `Lexicographic`, `TextOrder`, `Sizes` | dictionary order, of scalars and of UTF-8 bytes; sizes of sets |

Conventions. An operation that updates state in the daemon is a method of a class here, proved against a
function of the old state; what is promised about whole histories is proved about those functions or kept as
`Valid()`. Concurrent protocols are step relations, and their results hold for every interleaving. What the
code does not decide (how a systemctl call turns out and how long it takes, what happens to a table between
two pages, which statement throws) is an arbitrary argument, so every result holds for every such choice.

Assumptions about the outside, each visible in a contract or a definition:

- A systemctl call that answers tells the truth, one that fails or times out may have done part of its work,
  one that fails prints nothing on its standard output, and the host changes only through the pass (`ServiceHost.Effect`, `ServiceHost.ReplyTo`). Stopping a unit
  ends every process in its cgroup (`ServiceHost.Stopped`). A service manager may fail to see a running unit but
  never reports one that is not running (`LegacyMigration.Host.CheckStatus`), and it changes the unit its status
  names and the unit file its status shows (`LegacyMigration.Installed`).
- A surface reads as markup the characters and forms its escaper names, and nothing else
  (`InertMarkup.ReadDiscord`, `ReadMarkup`, `ReadDelimited`); the surfaces without an escaper read none.
- `rename` replaces its target in one step (`SqliteSave.Renamed`); a file write is not atomic.
- A conversation's snapshot is its message list, and reloading one restores it.
- The platform store returns stored text unchanged unless it takes it for a reference, and does not take a
  wrapped literal for one (`Secrets.GetAfterSet`).
- SQLite orders ids by their UTF-8 bytes; the models order them by their Unicode scalars, which is the same order
  (`TextOrder.BytesOrderAsScalars`).

Where the code falls short of a property, the exact limit is proved:

- The step a printed cycle chain closes with is an import, whatever the import order, exactly when every dead end
  from the first file leads back to it (`CycleReport.ClosingIsRealExactly`). That is so, for one, when no file of
  the component imports two others of it, and never for all choices of a first file when no import cycle runs
  through the whole component; the smallest misprint has three files (`CycleReport.ClosingStepCanBeMissing`).
- The unattended pass never stops the legacy unit while its main process is alive, but it looks at no other
  process of that unit. No run can end a process exactly when the guards refuse on that host, or the legacy cgroup
  holds no live process (`LegacyReconcile.NoProcessAtRisk`); its own process is at risk exactly under a dead legacy
  unit whose cgroup it cannot read (`LegacyReconcile.OwnProcessAtRisk`). The comment in
  src/runtime/legacy-daemon-reconcile.ts:170-173 says the pass NEVER acts from inside the legacy unit; the model
  follows the code.
- A save that fails after it has opened its temporary file leaves that file behind, and only such a save does
  (`SqliteSave.StrayFiles`).
- A rewind can be undone exactly when the last later rewind of a live session that drew the same id, if there is
  one, cut the same conversation with the same contents (`ConversationRewind.UndoableExactly`).
- A page cursor comes back exactly when its position is not before the epoch and its id is non-empty without a
  lone surrogate (`PageCursor.RoundTrip`). A negative item cap means no cap (`InboxFeed.SweptUncapped`).

## Model

| member | source | states |
|---|---|---|
| CycleReport.FindCycles | scripts/check-architecture.ts:137-177 | for every graph, whose edges are its own entries, the reported lists are exactly the strongly connected components of two or more files, each without repeats and disjoint from the others; later components never are reached from earlier ones; the report is empty exactly when no import cycle runs through two or more files |
| ImportCycles.CycleFinder.StrongConnect | scripts/check-architecture.ts:145-171 | one call keeps the search's invariant, leaves the caller's stack and indices alone, and returns a low-link that covers every import from the files it left on the stack into the caller's |
| ImportCycles.CycleFinder.PopThrough | scripts/check-architecture.ts:163-168 | takes exactly the files from the root upward off the stack, newest first, and keeps the on-stack flags right |
| ImportCycles.PopIsScc | scripts/check-architecture.ts:161-169 | a root's part of the stack is a whole component when its imports lead only to itself and to finished files |
| ImportCycles.RecordKeepsDone | scripts/check-architecture.ts:161-169 | recording a popped component keeps the finished files closed, completely reported and in reverse topological order |
| CycleReport.ReportIsUnique | scripts/check-architecture.ts:137-177 | the report names the same components whatever order files are searched in |
| CycleReport.FormatCycleChain | scripts/check-architecture.ts:180-202 | the chain starts and ends at the first file by path, takes the first open import at every step, and stops only where none is open |
| CycleReport.PrintsOne | scripts/check-architecture.ts:180-202 | component, first file and import order leave exactly one chain to print |
| CycleReport.ChainNamesTwoFiles | scripts/check-architecture.ts:180-202 | a reported component's chain always names at least two files |
| CycleReport.ClosingIsRealExactly | scripts/check-architecture.ts:187-200 | the printed closing step is an import for every import order exactly when the last file of every dead end from the first file imports it |
| CycleReport.SimpleCyclePrintsTrue | scripts/check-architecture.ts:187-200 | when no file of a component imports two others of it, the chain names every file once and its closing step is an import |
| CycleReport.NoFullRoundMisprints | scripts/check-architecture.ts:187-200 | in a component no import cycle runs through whole, some first file and some import order make the closing step an import that does not exist |
| CycleReport.TwoFileChainCloses | scripts/check-architecture.ts:200 | for a component of two files the printed closing step is an import |
| CycleReport.ClosingStepCanBeMissing | scripts/check-architecture.ts:200 | for a component of three files with `a` first by path the one printed chain is `a -> b -> c -> a`, and `c` does not import `a` |
| Lexicographic.PrecedesAtDifference | scripts/check-architecture.ts:181 | the sort order is the dictionary's: smaller at the first difference, or the beginning of the other |
| InboxFeed.FeedOrderIsUnique | src/daemon/handlers/inbox/cursor-store.ts:125-134 | the feed order is total: any sorted listing of a table's rows is the feed |
| InboxStore.AfterIsFeedOrder | src/daemon/handlers/inbox/cursor-store.ts:364-372 | the keyset clause selects exactly the rows later in the feed than the cursor row |
| InboxStore.InboxCursorStore.ListItems | src/daemon/handlers/inbox/cursor-store.ts:352-385 | only stored rows that match, in feed order, as many as there are up to the limit, and every match left out comes after every row listed |
| InboxFeed.FirstRowsAreHead | src/daemon/handlers/inbox/cursor-store.ts:377-384 | those conditions leave one answer: the head of the matching feed |
| InboxStore.InboxCursorStore.UpsertItems | src/daemon/handlers/inbox/cursor-store.ts:265-319 | a batch leaves the fold of its items and returns exactly the growth in rows; a throwing statement leaves everything as it was |
| InboxUpsert.PutAllRow | src/daemon/handlers/inbox/cursor-store.ts:285-315 | after a batch, touched rows hold the last item with their id and the last route ever stated, untouched rows are unchanged |
| InboxUpsert.PutAllTwice | src/daemon/handlers/inbox/cursor-store.ts:260-264 | delivering a batch again changes nothing |
| InboxStore.InboxCursorStore.AdvanceCursor | src/daemon/handlers/inbox/cursor-store.ts:325-337 | a provider's watermark becomes the maximum of old and candidate; no other provider's moves; a candidate that changes nothing leaves the store clean |
| InboxStore.InboxCursorStore.PruneOlderThan | src/daemon/handlers/inbox/cursor-store.ts:439-453 | removes exactly the rows strictly older than the cutoff within the providers given, counts them, and does nothing for a non-finite cutoff |
| InboxStore.InboxCursorStore.EnforceItemCap | src/daemon/handlers/inbox/cursor-store.ts:246-258 | leaves the newest rows the cap allows and counts the rest |
| InboxStore.InboxCursorStore.SweepRetention | src/daemon/handlers/inbox/cursor-store.ts:207-212 | rows before are rows expired, capped and remaining, each counted exactly; cursors are untouched |
| InboxFeed.SweptByPlace | src/daemon/handlers/inbox/cursor-store.ts:207-212 | a row survives exactly when it has not expired and fewer rows than the cap are ahead of it in the feed |
| InboxFeed.SweptIsFeedHead | src/daemon/handlers/inbox/cursor-store.ts:242-258 | the survivors are the first rows of the feed that have not expired, in order |
| InboxFeed.SweepsConverge | src/daemon/handlers/inbox/cursor-store.ts:28-33 | two sweeps at any two times, in either order, leave what one at the later time leaves; a repeated sweep reclaims nothing |
| InboxStore.InboxCursorStore.Close | src/daemon/handlers/inbox/cursor-store.ts:463-472 | a closed store has no retention timer, and `StartSweepTimer` keeps it so whenever it runs |
| InboxAggregator.AggregateInbox | src/daemon/handlers/inbox/aggregator.ts:240-297 | the answer shows the page row by row and field by field, `hasMore` tells exactly whether the store holds more, the total ignores the cursor, the next cursor resumes at the page's last row, there is a freshness cursor exactly when `since` or a row is after the epoch and it is the later of the two, the statuses tell each known and each requested provider's standing and counts, and the answer is partial exactly when a configured provider failed |
| InboxAggregator.FreshCursorSkipsTheKnown | src/daemon/handlers/inbox/aggregator.ts:286-288 | fed back as `since`, the freshness cursor selects exactly what the listing would and what arrived after everything the store held |
| InboxAggregator.ListingAccounts | src/daemon/handlers/inbox/aggregator.ts:258-269 | the item counts of a listing add up to the page exactly when the node has an adapter for every provider on it, and never exceed it |
| InboxAggregator.NoProviderMissing | src/daemon/handlers/inbox/aggregator.ts:299-347 | every provider the node knows or the caller asked for has a status |
| InboxProviders.DescribeProviders | src/daemon/handlers/inbox/aggregator.ts:306-373 | the statuses in order, known providers with their standing and counts, then requested unknown ones as unconfigured; an error is told only of a failing provider |
| InboxAggregator.NormalizeQuery | src/daemon/handlers/inbox/aggregator.ts:173-213 | query string before body; the limit is the allowed one nearest to the one asked for; provider and `since` select what was asked for; a listing is refused exactly for a non-empty cursor that does not decode |
| InboxPaging.WalkAdvances | src/daemon/handlers/inbox/aggregator.ts:240-297 | positions strictly advance along a walk, whatever the table becomes between pages |
| InboxPaging.EachRowOnce | src/daemon/handlers/inbox/aggregator.ts:240-297 | a caller who follows cursors to the end sees every matching row that stayed in place exactly once |
| InboxPaging.WalkIsReal | src/daemon/handlers/inbox/aggregator.ts:240-297 | every row a walk collects was in one of the tables and matched the filter |
| InboxPaging.QuietWalkCompletes | src/daemon/handlers/inbox/aggregator.ts:240-297 | over a table nobody changes, a walk reaches a page without more exactly when its pages, at least one, hold all the rows behind its start |
| InboxPaging.QuietWalkIsListing | src/daemon/handlers/inbox/aggregator.ts:240-297 | over a table nobody changes, a walk of enough pages is the listing itself |
| InboxPaging.ResumeIssued | src/daemon/handlers/inbox/aggregator.ts:127-150 | an issued cursor resumes exactly at its row |
| PageCursor.RoundTrip | src/daemon/handlers/inbox/aggregator.ts:127-150 | decoding an encoded position gives it back if and only if it is not before the epoch and its id is non-empty and well formed |
| PageCursor.DecodeOfEncode | src/daemon/handlers/inbox/aggregator.ts:137-150 | what decoding gives for every encoded position, lone surrogates and appended noise included |
| PageCursor.DecodeExactly | src/daemon/handlers/inbox/aggregator.ts:137-150 | a cursor is taken exactly when its text is a number from the epoch on, a colon, and an id, and names that position |
| PageCursor.PaddedCursorDecodes | src/daemon/handlers/inbox/aggregator.ts:137-150 | some strings that were never issued decode too |
| Decimal.ValueOfPrint | src/daemon/handlers/inbox/aggregator.ts:128 | reading a printed natural number gives it back |
| Unicode.DecodeEncodeUtf8 | src/daemon/handlers/inbox/aggregator.ts:128 | UTF-8 decoding undoes encoding for every text (section 3 of RFC 3629) |
| Unicode.FromToText | src/daemon/handlers/inbox/aggregator.ts:128-140 | a UTF-16 string survives the trip through text exactly when it has no lone surrogate |
| TextOrder.BytesOrderAsScalars | src/daemon/handlers/inbox/cursor-store.ts:377-384 | ordering text by its UTF-8 bytes is ordering it by its scalars |
| Base64Url.DecodeEncode | src/daemon/handlers/inbox/aggregator.ts:128-140 | base64url decoding undoes encoding for every byte string (section 5 of RFC 4648) |
| Base64Url.EncodeIsCanonical | src/daemon/handlers/inbox/aggregator.ts:128 | no more letters than needed, and padding bits are zero |
| Secrets.ReadQuoted | src/config/secrets.ts:33-47 | every string, lone surrogates included, is read back from its JSON form (section 7 of RFC 8259) |
| Secrets.DecodeEncodeLiteral | src/config/secrets.ts:33-47 | unwrapping undoes wrapping for every string |
| Secrets.GetAfterSet | src/config/secrets.ts:57-70 | every string that is not a GoodVibes reference is read back as it was set |
| Secrets.GetAfterSetExactly | src/config/secrets.ts:21-31 | for every string: it is read back as it was set, except that a GoodVibes reference is stored as it is and resolved by the platform |
| Secrets.SecretsManager.Set | src/config/secrets.ts:68-70 | a value is wrapped exactly when it begins with the prefix or is a reference to something other than GoodVibes |
| Secrets.QuoteOnlyNeeded | src/config/secrets.ts:33-35 | a unit is escaped only where JSON needs it, as shortly as it can be |
| Secrets.NamesSpell | src/config/secrets.ts:19-24 | the prefix, the reference scheme and the wrapper's JSON, spelled out |
| Secrets.HexSpells | src/config/secrets.ts:33-47 | hexadecimal digits are written in lower case and read in either |
| Secrets.SecretsManager.Get | src/config/secrets.ts:57-66 | an environment literal is unwrapped first; otherwise the platform's answer, for an environment value or for a stored one, is unwrapped |
| InertText.DiscordUndone | src/daemon/send/inert-text.ts:89-91 | dropping zero-width spaces and reading backslash escapes gives back the text |
| InertText.DiscordIsCrowdBreak | src/daemon/send/inert-text.ts:61-66 | behind the escaper the two id rewrites never fire, and every special character in the result is escaped |
| InertText.MentionsNeverFire | src/daemon/send/inert-text.ts:64-65 | a mention pattern cannot match a text in which every closing bracket follows a backslash |
| InertText.MentionRewriteLosesMark | src/daemon/send/inert-text.ts:64 | on unescaped text the rewrite would lose the mark |
| InertText.DiscordMentionsNobody | src/daemon/send/inert-text.ts:63 | no `@everyone` and no `@here` survives |
| InertText.DiscordAddsOnlyNeeded | src/daemon/send/inert-text.ts:61-91 | one backslash for every special character, one zero-width space for every call, and nothing else; a text without either is sent as it is |
| InertText.DiscordSpells | src/daemon/send/inert-text.ts:63-90 | the special characters and the called names, spelled out |
| InertText.ChannelMentionsKept | src/daemon/send/inert-text.ts:65 | the rewrite of channel mentions only adds zero-width spaces |
| InertMarkup.ThreePassesAreOne | src/daemon/send/inert-text.ts:107-108 | the three entity passes equal one table lookup per character |
| InertMarkup.AmpersandMustGoFirst | src/daemon/send/inert-text.ts:108 | with `&` replaced last a `<` does not come back |
| InertMarkup.MarkupUndone | src/daemon/send/inert-text.ts:107-121 | decoding the entities and dropping zero-width spaces gives back the text |
| InertMarkup.MarkupIsInert | src/daemon/send/inert-text.ts:107-121 | no raw angle bracket, every `&` begins an entity, every delimiter is broken |
| InertMarkup.MarkupAddsOnlyNeeded | src/daemon/send/inert-text.ts:107-121 | exactly the texts without bracket, ampersand and delimiter are sent as they are |
| InertMarkup.MarkupSpells | src/daemon/send/inert-text.ts:107-136 | the delimiters and the entities, spelled out |
| InertMarkup.EscapedReadsLiterally | src/daemon/send/inert-text.ts:89-91 | text with every special escaped and nobody called holds no active markup and no mention, and reads as its literal characters |
| InertMarkup.InertReadsLiterally | src/daemon/send/inert-text.ts:107-121 | inert text holds no active bracket, delimiter or stray entity, and reads as its literal characters |
| InertMarkup.ArrivesAsLiteralText | src/daemon/send/inert-text.ts:167-225 | on every surface a message can be sent to, nothing in it is active as markup or mention and the reader sees the text that was sent; the surfaces without an escaper get it unchanged; the others refuse |
| InertMarkup.LiteralIsInert | src/daemon/send/inert-text.ts:107-121 | Slack and Google Chat read a text literally exactly when it is inert |
| InertMarkup.RawTextArrives | src/daemon/send/inert-text.ts:61-166 | sent as it is, a text arrives as its own literal characters exactly when, on Discord, it calls nobody and its only specials are lone backslashes, on Slack and Google Chat it is inert and has no `&`, on WhatsApp every delimiter is broken already, and always on the surfaces without an escaper |
| ServiceHost.ParsePrinted | src/runtime/legacy-daemon-migration.ts:345-349 | a truthful MainPID reply is read as the pid it names, 0 as none |
| ServiceHost.ParseSigned | src/runtime/legacy-daemon-migration.ts:345-349 | a numeral with a sign is read with its sign |
| ServiceHost.DeadlineRunner.Run | src/runtime/legacy-daemon-reconcile.ts:54-71 | calls past the budget are skipped with an unknown status, all others end within it and within their own timeout |
| ServiceHost.SkippedStays | src/runtime/legacy-daemon-reconcile.ts:61-66 | once one call is skipped every later one is |
| ServiceHost.CallEndsInTime | src/runtime/legacy-daemon-reconcile.ts:35-44 | a call that is not skipped ends by the deadline however slow the calls before it were |
| LegacyReconcile.ReconcileRedundantLegacyUnit | src/runtime/legacy-daemon-reconcile.ts:200-448 | at every moment of every run a legacy unit with a live main process is untouched, nothing happens without a live canonical daemon, and a removed file leaves no link; the reason given is borne out by the facts of the host and of the calls, with the action that goes with it; which systemctl calls are made, and in what order; the host afterwards, exactly; the processes ended are those of the legacy cgroup, exactly when a disable stops the unit |
| LegacyReconcile.OneReason | src/runtime/legacy-daemon-reconcile.ts:116-128 | the facts behind the twelve reasons exclude each other, so each run has one reason |
| LegacyReconcile.NoProcessAtRisk | src/runtime/legacy-daemon-reconcile.ts:216-307 | no run can end a process of the host exactly when the guards refuse there or the legacy cgroup holds no live process |
| LegacyReconcile.OwnProcessAtRisk | src/runtime/legacy-daemon-reconcile.ts:152-158 | a run can end its own process exactly under a dead legacy unit beside a live canonical daemon, and only with an unreadable cgroup |
| LegacyReconcile.WorkerOfDeadMainIsEnded | src/runtime/legacy-daemon-reconcile.ts:296-310 | another live process of a legacy unit whose main process is gone is ended |
| LegacyReconcile.EnabledProbe | src/runtime/legacy-daemon-reconcile.ts:379-382 | a look confirms the link is gone exactly when it finished and the link is gone |
| LegacyReconcile.Retire | src/runtime/legacy-daemon-reconcile.ts:371-448 | removal only after a disable that answered, or timed out and was then seen to have taken effect; otherwise a failure told apart by how the disable turned out; the host afterwards, exactly |
| LegacyReconcile.Guards | src/runtime/legacy-daemon-reconcile.ts:220-365 | the checks only look, in order; they pass exactly when every guard holds of the host, and otherwise the refusal is noop or notice as its reason demands, and the reason holds of the host |
| LegacyMigration.RunLegacyDaemonMigration | src/runtime/legacy-daemon-migration.ts:427-605 | at every moment of every run, whatever fails: nothing changes without consent or on a collision of unit name or file, the legacy unit and its file are untouched unless the new unit is installed, runs and has been seen running, a host that had a daemon has one, and no other unit or file changes; which actions are taken, and in what order, whatever the ones before report; what each leaves of the two units and their files; the internal check never throws |
| LegacyMigration.Migrate | src/runtime/legacy-daemon-migration.ts:531-605 | succeeds exactly when the new unit was seen running; otherwise the new unit is rolled back; each step of a retirement does its part whatever the others report |
| LegacyMigration.SameNameStopsTheNewUnit | src/runtime/legacy-daemon-migration.ts:283-309 | under the legacy name, retiring the legacy unit stops the unit just started |
| LegacyMigration.SamePathLosesTheFile | src/runtime/legacy-daemon-migration.ts:486-496 | at the legacy path, installing overwrites the legacy file and retiring deletes the new one |
| LegacyMigration.NameFromUnitPath | src/runtime/legacy-daemon-migration.ts:310-314 | without a carried name, or with a blank one, a unit path names its unit |
| LegacyMigration.NameIsCarried | src/runtime/legacy-daemon-migration.ts:310-314 | a carried name that is not blank is the unit's name, without the space around it |
| SqliteSave.TempPathsDiffer | src/daemon/handlers/sqlite-store.ts:278-279 | the counter alone keeps temporary names apart, in the same millisecond and for different databases |
| SqliteSave.TempPathSaysWhose | src/daemon/handlers/sqlite-store.ts:279 | a temporary name determines database, process, moment and number, and stands beside its database |
| SqliteSave.StepKeeps | src/daemon/handlers/sqlite-store.ts:274-282 | every step of every save keeps the invariant |
| SqliteSave.EveryMoment | src/daemon/handlers/sqlite-store.ts:262-282 | in every interleaving the database path is as it was while no save is done and then holds the complete exported image of one that is, temporary names are pairwise distinct, and a rename finds its own complete file |
| SqliteSave.DoneWasHeld | src/daemon/handlers/sqlite-store.ts:274-281 | what a finished save put in place is what the database held at some moment of the run |
| SqliteSave.SaveLands | src/daemon/handlers/sqlite-store.ts:274-281 | from any moment a save nothing fails in can be carried through, and leaves what the database holds then |
| SqliteSave.OthersGoOn | src/daemon/handlers/sqlite-store.ts:274-281 | changes of the database and other stores never wait for a save, and touch no file |
| SqliteSave.LeftBehind | src/daemon/handlers/sqlite-store.ts:274-282 | once all saves are over there is a temporary file for each save that failed to write or rename, none for one that is done, and no other file has changed |
| SqliteSave.StrayFiles | src/daemon/handlers/sqlite-store.ts:274-282 | the new files left behind are exactly the temporary files of failed saves |
| ConversationRewind.RewindPort.DoRewind | src/runtime/conversation-rewind-port.ts:117-129 | cuts the live conversation to the length recorded for the turn, if one below its own was, and else leaves it; remembers both sides; reports exactly what it dropped |
| ConversationRewind.RewindPort.ShowPreview | src/runtime/conversation-rewind-port.ts:109-115 | announces exactly what an immediate rewind keeps, the recorded length where one is below the conversation's own; kept and dropped make up the whole |
| ConversationRewind.RewindPort.Restore | src/runtime/conversation-rewind-port.ts:101-106 | puts the remembered side back into the conversation it was taken from, and rebuilds its history |
| ConversationRewind.RewindGoesBack | src/runtime/conversation-rewind-port.ts:92-99 | after any history in which the conversation was only added to, rewinding to a turn recorded as it completed gives the contents it had then |
| ConversationRewind.RestoreIsExact | src/runtime/conversation-rewind-port.ts:87-139 | after any history that does not draw the rewind's id again, undo and redo give the very conversation its exact contents just before and just after the rewind, and change no other |
| ConversationRewind.UndoableExactly | src/runtime/conversation-rewind-port.ts:87-139 | after any history a rewind can be undone, or redone, exactly when the last rewind of a live session that drew its id since, if any, cut the same conversation with the same contents before, or after |
| ConversationRewind.LastStoreIsLast | src/runtime/conversation-rewind-port.ts:117-129 | which operation of a history last stored a snapshot under an id |
| ConversationRewind.UndoRedo | src/runtime/conversation-rewind-port.ts:131-137 | undo takes a rewind back altogether, redo applies it again |
| DaemonWsCall.VerbCall.Handle | src/cluster/daemon-ws-call.ts:128-234 | after any events the caller was answered at most once, by the first event that decides; each handler decides what its event and its frame call for |
| DaemonWsCall.VerbCall.Finish | src/cluster/daemon-ws-call.ts:140-150 | settles once, however often closing the socket calls back |
| DaemonWsCall.DecidedByAnEvent | src/cluster/daemon-ws-call.ts:156-233 | a run is decided exactly when one of its events decides, and by the first such event |
| DaemonWsCall.CallNeedsAuth | src/cluster/daemon-ws-call.ts:160-169 | a call frame is sent exactly when an accepted auth frame was received |
| TestPool.EveryMoment | scripts/run-tests.ts:221-228 | in no interleaving is a file run twice, and every run is bounded |
| TestPool.Finished | scripts/run-tests.ts:198-246 | when all workers stopped each file was run once, the counters are the numbers of files that passed, failed and were unaffected, and the exit code is 0 exactly when no file failed, else 1 |
| TestPool.StepUsesOne | scripts/run-tests.ts:222-228 | every step uses up work, so no interleaving goes on for ever |
| TestPool.NeverStuck | scripts/run-tests.ts:222-236 | a pool that is not finished can take a step |

## Left out

- The import patterns, path resolution and file walk of the architecture gate: the model starts from the finished graph. The layer-boundary scan is three nested filters and is not modelled.
- Relative path printing and joining in the printed chain: a chain is a list of files.
- PageCursor.Decode: numbers written other than as plain decimal integers below 2^53 are read by an arbitrary function, so nothing is claimed for cursors that were never issued.
- Base64Url.Decode: units outside both alphabets are ignored wherever they stand, also `=` in the middle.
- InboxAggregator.AggregateInbox: expects a limit of at least 1, which normalized queries have, and rows whose positions a cursor can carry; what the poller answers is an argument.
- InboxAggregator.ListingAccounts: a provider asked for twice is reported twice, which a normalized query never does.
- InboxAggregator.FreshCursorSkipsTheKnown: a `since` from 2^53 on is printed by an arbitrary function, so nothing is claimed for it.
- InboxAggregator.NormalizeQuery: how a string is read as a number; each source states a number or none.
- InboxStore.InboxCursorStore.ListItems: the query engine takes the rows one by one in feed order; the SQL text itself is not modelled.
- InboxStore.InboxCursorStore.Flush: one step; a change that lands while the file is being written, and is then marked clean, is not modelled.
- Opening, quarantining and reaping damaged databases, and SQL text itself: tables are maps, queries are their filter, order and limit.
- SqliteSave.LeftBehind: a `mkdir` that fails leaves its save waiting.
- SqliteSave.EveryMoment: saves are steps of one process on one database path, not methods of the store class; another process writing the same path is not modelled.
- Secrets.ReadValue: JSON texts other than the one the wrapper writes are read by an arbitrary function.
- Secrets.SecretsManager.Get: what the platform's own store answers for a key the environment sets is arbitrary.
- LegacyMigration.RunLegacyDaemonMigration: each action has one arbitrary outcome; time, `daemon-reload` and the printed lines are left out, and so is the port the two units compete for.
- LegacyReconcile.ReconcileRedundantLegacyUnit: the injected runner of the tests, which has no timeout, and the printed lines.
- ConversationRewind.RewindPort.DoRewind: how snapshot ids are drawn; an id is an argument.
- DaemonWsCall.VerbCall.Handle: a `send` that throws, and the wording of errors and fixes.
- TestPool.Finished: a `runFile` that throws, temporary directories, and how a file's output is classified.
- Draft storage, argument parsing, configuration plumbing, credentials, redaction and everything that lives in the SDK packages.
