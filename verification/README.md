# Verified models of the roster application's core protocols

This project models the parts of the application and its tooling whose correctness depends on more than one function, and
proves what they promise. Each component has its own module; small shared modules hold sorting, graphs, sets and options.

- **Graph analyses.** `CycleFinder` is the recursive strongly connected component search with its index, low-link and stack
  fields. `ModuleBoundaries` puts it to use and models the worklist search for privileged imports. `UiFoundation` is the
  breadth-first search with early exit and memo. All three are proved against plain reachability (`Digraph`).
- **Duty-roster forms.** `RosterForms` holds the commands as functions and proves what every run of them keeps;
  `RosterExcusals` the excusal intervals; `RosterSettings` the save that combines them and its retry; `Da6Sheets` the sheets
  of a month. `RosterStore` is the same store as a class that changes rows one statement at a time, possibly cut off, and is
  proved to end where the functions say. `CatalogOrder` models the two compare-and-set reorderings, `AvailabilityImport` the
  import that replaces saved entries.
- **Preference synchronisation.** `PreferenceServer` is a state machine in which any number of calls interleave their reads
  and conditional writes of one row. `PreferenceClient` is the debouncing client, as a step function per event and as a class
  proved to follow it. `PreferenceSync` joins any number of clients with the server.
- **Crash-safe receipts.** In `ReviewFailure` and `JobReceipt` every external effect is one step, in `ReviewFailure` down to
  the temporary file, the rename and the directory sync. A run is given a number of effects it has time for, so a theorem
  about all numbers is a theorem about a crash at every point; between two steps others may act.
- **Account setup links.** `SetupLinks` models the stamps of a link over its life and the five readers of them: token
  check, claim, recovery, setup page and setup-state read model.
- **Small algorithms.** `PlannerEncoding` is the interned encoding of standings with its decoder, `WorksheetNames` the search
  for a free worksheet name.

## Where the code and its promises differ

- Worksheet names: trying one name more than are in use is not always enough. A base of 31 characters that ends in
  a space and a counter is one of its own numbered names, and then two more may be tried. `OneMoreIsEnoughIff` gives the
  exact condition and `RepeatingName` an example. Termination and distinctness hold for every name. The export's own sheet
  titles contain no digit (organizationDataExportManifest.server.ts:61-178 and 184-460), so by `NoDigitsNoRepeat` none of
  them meets the exception.
- Status type order: `setStatusTypeOrder` skips rows that already stand at their place, which reads back as requested only if
  the rows left in place stay between those renumbered. `MovedOrderIff` is that condition, dense positions imply it, and
  `DeletionBreaksOrder` shows a deletion breaking it.
- Lane order: the request is re-read as given exactly when it names each lane once, which is checked where the request is
  parsed and not by the command.
- Excusals: intervals of one person stay disjoint over every run in which the device day does not go back. The accepted range
  of device days lets it go back by a day or two, and then `GoingBackOverlaps` applies.
- Setup links: the five readers tell one outcome behind a live, approved, incomplete request with an address
  (`ReadersAgree`), apart from links revoked by the cleanup, by hand or for no recorded reason, and from claimed links past
  their expiry, which not only the read model but also the claim calls claimed. Behind any other request they check request
  and link in different orders and differ; each `AgreesIff` lemma says exactly when. Statuses are compared by what they tell
  the person, that is, by the message they share (accountSetupRouteFlow.server.ts:93-117).
- Review failure: the armed receipt implies the constraint only as long as others leave the constraint alone, and a loss of
  power after the receipt is unlinked may bring it back, since that unlink is not synced; restoring again removes it.
- `MarkFailed` does not look at the revocation stamp, unlike `MarkCompleted`; no reachable link shows the difference.

## Model

| member | source | states |
|---|---|---|
| `CycleFinder.Cycles` | scripts/module-boundaries.ts:433-467 | For any node list and edge list the result is exactly the strongly connected components that contain a cycle, each once, sorted, and in reverse topological order; an edge target outside the nodes is a sink and never reported |
| `CycleFinder.SharedComponent` | scripts/module-boundaries.ts:433-467 | Two nodes are in one reported component exactly when the first lies on a cycle and each reaches the other; no node is in two components, and every reported node was listed |
| `CycleFinder.CyclicIffOnCycle` | scripts/module-boundaries.ts:463 | The test "more than one member, or a self-loop" holds of a component exactly when its members lie on a cycle |
| `CycleFinder.NoCyclesIffRanked` | scripts/module-boundaries.ts:103-109 | Nothing is reported exactly when some rank drops along every edge, that is, when the graph is acyclic |
| `CycleFinder.CycleSearch.Visit` | scripts/module-boundaries.ts:442-464 | The recursive visit, with the real index, low-link and stack fields, keeps the state consistent and either leaves its node stacked above an older reachable one or pops it in a whole component |
| `CycleFinder.CycleSearch.PopComponent` | scripts/module-boundaries.ts:455-463 | When the low link equals the index, the nodes popped are one whole component and what leaves it was popped before |
| `CycleFinder.CycleSearch.PopDownTo` | scripts/module-boundaries.ts:456-462 | The pop loop takes off exactly the nodes above and including the given one, each once |
| `CycleFinder.TreeStep` | scripts/module-boundaries.ts:448-450 | After the visit of a new successor, taking the smaller low link keeps what is known inside the visit |
| `CycleFinder.BackStep` | scripts/module-boundaries.ts:451-453 | Taking the index of a stacked successor into the low link keeps what is known inside the visit |
| `CycleFinder.KeepStep` | scripts/module-boundaries.ts:455 | A node whose low link is below its index reaches an older open node, and staying on the stack keeps the state consistent |
| `CycleFinder.TopIsComponent` | scripts/module-boundaries.ts:455-462 | When low link equals index, the nodes from there up reach each other and nothing else does; together with what was popped before they are closed under edges |
| `CycleFinder.PopStep` | scripts/module-boundaries.ts:455-463 | Popping that component keeps the state consistent, the order of components included |
| `CycleFinder.ReportIsComplete` | scripts/module-boundaries.ts:465-466 | Once every node is indexed, the report is exactly the cyclic components |
| `CycleFinder.BuildAdjacency` | scripts/module-boundaries.ts:434-435 | The adjacency map gives each listed node its edge targets, each once, and ignores edges out of unlisted nodes |
| `CycleFinder.DependencyEdge` | scripts/module-boundaries.ts:434-435 | The graph searched has an edge exactly where an edge of the list leaves a listed node |
| `ModuleBoundaries.SourceCycles` | scripts/module-boundaries.ts:184-198 | One finding per group of source files that import each other in a cycle, naming the least file of the group, and none exactly when the files can be layered so that every local import goes to a lower layer |
| `ModuleBoundaries.FirstsAreLeast` | scripts/module-boundaries.ts:188-197 | The first members of the reported components are the least of their groups, one for each group and none for files on no cycle |
| `ModuleBoundaries.RankedIsLayered` | scripts/module-boundaries.ts:184-187 | A rank of the filtered import graph is a layering of the imports themselves, and the other way round |
| `ModuleBoundaries.SourceEdge` | scripts/module-boundaries.ts:184-187 | The source graph has an edge exactly where a local import of a source file resolves to a source file |
| `ModuleBoundaries.CheckPrivilegeBoundaries` | scripts/module-boundaries.ts:347-411 | For every web or portable entry among the sources and every import in a file it gets to through imports that are not privileged (nor unportable, for a portable entry), there is a finding if the import is privileged (or unportable, for a portable entry), of the kind of the entry; there is one for every misplaced file; every finding is one of these, and none is repeated |
| `ModuleBoundaries.LeaksIffExposed` | scripts/module-boundaries.ts:369-408 | Getting somewhere by imports an entry does not stop at is reaching it in the graph the search walks |
| `ModuleBoundaries.PrivilegeCheck.SearchFrom` | scripts/module-boundaries.ts:369-410 | The worklist search from one entry ends, and reports every import the entry rejects in every file it reaches through imports it does not reject |
| `ModuleBoundaries.PrivilegeCheck.Expand` | scripts/module-boundaries.ts:382-409 | One file: each rejected import is reported, and exactly the source files behind the others join the worklist in order |
| `ModuleBoundaries.PrivilegeCheck.constructor` | scripts/module-boundaries.ts:353-354 | The adjacency map built in the loop holds, for exactly the source files, their imports in order |
| `ModuleBoundaries.NoFindingMeansNoPath` | scripts/module-boundaries.ts:369-410 | A web or portable entry leaks nothing exactly when no chain of imports from it contains a privileged one, nor an unportable one if it is portable |
| `ModuleBoundaries.AllowedEdge` | scripts/module-boundaries.ts:400-408 | The searched graph joins two source files exactly when an import the entry does not reject leads from one to the other |
| `UiFoundation.AnswerIsNearest` | scripts/ui-foundation.ts:96-113 | The breadth-first search returns an exposing file at the smallest distance through non-foundation files, and nothing exactly when none is reachable |
| `UiFoundation.WalkedIs` | scripts/ui-foundation.ts:104-105 | The search walks exactly the local imports that do not lead into the foundation |
| `UiFoundation.ProviderTypes.ProviderTypeSource` | scripts/ui-foundation.ts:96-113 | The answer, remembered or not, is that of a fresh search, and it alone is added to the memo |
| `UiFoundation.ProviderTypes.Enqueue` | scripts/ui-foundation.ts:104-109 | Adds to the queue exactly the unseen, non-foundation targets, each once, and marks them seen |
| `UiFoundation.SearchFindsNearest` | scripts/ui-foundation.ts:98-110 | From any reachable queue state the rest of the search finds a nearest exposing file |
| `UiFoundation.SeenInTime` | scripts/ui-foundation.ts:98-110 | Whatever is within n edges has been seen by the time files at distance n head the queue |
| `UiFoundation.Advance` | scripts/ui-foundation.ts:101-110 | One round keeps the queue ordered by distance, spanning at most two distances, with all nearer files finished |
| `Preferences.NormalizeStored` | src/features/identity/accountPreferences.ts:122-129 | A complete preference set comes back unchanged when stored and normalised again |
| `Preferences.NormalizeIdempotent` | src/features/identity/accountPreferences.ts:122-129 | Normalising twice through the store is normalising once, whatever the document |
| `Preferences.NormalizeReads` | src/features/identity/accountPreferences.ts:122-129 | Each field reads as the document has it if the document can be read and has it, and as its default otherwise |
| `Preferences.ReadIff` | src/features/identity/accountPreferences.ts:56-76 | A document can be read exactly when it and its sections are objects whose known fields all hold values the schema allows |
| `Preferences.FitsIff` | src/features/identity/accountPreferences.ts:56-76 | The values the schema allows for each field |
| `Preferences.DefaultsAre` | src/features/identity/accountPreferences.ts:78-97 | What each field reads as when nobody set it |
| `Preferences.MergeComplete` | src/features/identity/accountPreferences.ts:99-120 | A well-typed patch merged into a complete set leaves it complete |
| `Preferences.MergePatchComposes` | src/features/identity/accountPreferences.svelte.ts:12-19 | Applying a merged patch is applying its two parts in order |
| `PreferenceServer.NoLostUpdate` | src/features/identity/accountPreferences.server.ts:54-107 | Over every interleaving of concurrent calls, at every moment the row reads as all committed patches applied in commit order |
| `PreferenceServer.LastWriterDecides` | src/features/identity/accountPreferences.server.ts:69-104 | After any commits each field has the value of the last commit that set it, and otherwise its first value |
| `PreferenceServer.SavedOnce` | src/features/identity/accountPreferences.server.ts:87-104 | A call that returned success committed exactly once and returned the row as it stood right after that commit |
| `PreferenceServer.ConflictWroteNothing` | src/features/identity/accountPreferences.server.ts:106 | A call that ended in 409 committed nothing, and at least three other commits happened |
| `PreferenceServer.WritingMoves` | src/features/identity/accountPreferences.server.ts:87-104 | A write goes through exactly on the row that was read, then holding the merged set; on any other row it changes nothing and is tried again, or given up after the third attempt |
| `PreferenceServer.AloneItSaves` | src/features/identity/accountPreferences.server.ts:69-104 | From any state a call left alone reads, writes and returns the row merged with its patch |
| `PreferenceServer.RunKeepsInvariant` | src/features/identity/accountPreferences.server.ts:54-107 | Every state of every run satisfies the invariant that links each call's snapshot, attempt count and commit to the log |
| `PreferenceServer.NextKeepsInvariant` | src/features/identity/accountPreferences.server.ts:69-105 | Each read, commit, miss or failure of any call keeps that invariant |
| `PreferenceClient.AccountPreferencesState.Edit` | src/features/identity/accountPreferences.svelte.ts:68-79 | An edit is visible at once, is merged into the dirty fields, restarts the timer and clears an earlier failure; after disposal it does nothing |
| `PreferenceClient.AccountPreferencesState.Flush` | src/features/identity/accountPreferences.svelte.ts:89-100 | At most one save is in flight, and a started one carries exactly the dirty fields |
| `PreferenceClient.AccountPreferencesState.SaveEnds` | src/features/identity/accountPreferences.svelte.ts:101-125 | Ends in exactly the state of the save-ended step, reports a failure exactly when an active client was not confirmed, and starts the next save only if one was due |
| `PreferenceClient.AccountPreferencesState.Acknowledge` | src/features/identity/accountPreferences.svelte.ts:115-118 | The acknowledged set becomes the base, with what is still dirty on top |
| `PreferenceClient.SaveEndedKeeps` | src/features/identity/accountPreferences.svelte.ts:101-125 | However a save ends, every dirty field is visible and still has a reason: a timer, a due save, one in flight with the same value, or a failure since the last edit |
| `PreferenceClient.SaveEndedIs` | src/features/identity/accountPreferences.svelte.ts:115-125 | A failure changes no field and is remembered; a confirmed answer becomes the base; the next save starts exactly when one was due and something is still dirty |
| `PreferenceClient.ClearedWasSaved` | src/features/identity/accountPreferences.svelte.ts:115-118 | A field stops being dirty only when the answer confirmed that same value |
| `PreferenceClient.EditedKeeps` | src/features/identity/accountPreferences.svelte.ts:68-79 | An edit during a timer or a save keeps the client sound |
| `PreferenceClient.TimerFiredKeeps` | src/features/identity/accountPreferences.svelte.ts:74-78 | The timer keeps it sound: what is dirty is sent, or stays due while a save is in flight |
| `PreferenceClient.AccountPreferencesState.TimerFires` | src/features/identity/accountPreferences.svelte.ts:74-78 | The debounce timer sends what is dirty, or leaves it due when a save is in flight |
| `PreferenceClient.AccountPreferencesState.Dispose` | src/features/identity/accountPreferences.svelte.ts:81-87 | After disposal nothing is dirty, due or timed |
| `PreferenceClient.AccountPreferencesState.Quiesce` | src/features/identity/accountPreferences.svelte.ts:68-126 | Left to run against a server with no other edits, an unfailed client ends clean, showing what it showed |
| `PreferenceClient.RemainingIsUnsent` | src/features/identity/accountPreferences.svelte.ts:29-39 | A field stays dirty exactly when its dirty value is not the one sent |
| `PreferenceClient.EchoConfirms` | src/features/identity/accountPreferences.svelte.ts:21-39 | The answer of a server with no other edits confirms the save and leaves the visible value as it is |
| `PreferenceClient.IdleIsClean` | src/features/identity/accountPreferences.svelte.ts:68-126 | Idle without a failure since the last edit, nothing is dirty and the visible value is the acknowledged one |
| `PreferenceClient.DirtyIsVisible` | src/features/identity/accountPreferences.svelte.ts:68-79 | In every reachable state a dirty field is what the client shows |
| `PreferenceSync.RunKeeps` | src/features/identity/accountPreferences.svelte.ts:68-126 | Over every run of any number of clients and server steps, with answers lost at will, all clients are sound, each save in flight is a call with that body, and each base is the row as it stood after some commit |
| `PreferenceSync.RowIsFold` | src/features/identity/accountPreferences.server.ts:69-104 | At every moment the row reads as all saves committed by all clients, in commit order |
| `PreferenceSync.ClearedIsCommitted` | src/features/identity/accountPreferences.svelte.ts:115-118 | An active client gives up a dirty field only after its own call committed a patch with that value |
| `PreferenceSync.SavedIsAccepted` | src/features/identity/accountPreferences.svelte.ts:21-27 | The answer of a call that saved always confirms, so a client never reports a save that it heard succeed |
| `PreferenceSync.IdleShowsRow` | src/features/identity/accountPreferences.svelte.ts:119-125 | Every idle client without a failure is clean and shows the row as it stood at some moment |
| `RosterForms.EveryRunTilesTime` | src/features/calendar/inMemoryCalendarPersistence.server.ts:118-133 | After any run of commands from creation a person-assigned type has exactly one open form and a Group type none, no day lies in two forms, and no day from the first start on is left out |
| `RosterForms.RunKeeps` | src/features/calendar/inMemoryCalendarPersistence.server.ts:215-246 | Every run of update, close, in-place rewrite, end and reopen keeps the forms tiled: each start is the day after the end before it |
| `RosterForms.ApplyKeeps` | src/features/calendar/inMemoryCalendarPersistence.server.ts:230-246 | Each single command, refused or not, keeps that invariant |
| `RosterForms.CloseKeeps` | src/features/calendar/inMemoryCalendarPersistence.server.ts:372-417 | Closing a started form, or rewriting one that has not started, keeps it |
| `RosterForms.EndKeeps` | src/features/calendar/inMemoryCalendarPersistence.server.ts:418-437 | Ending a started form, or removing one that has not started, keeps it and leaves a Group type |
| `RosterForms.EnsureOpenFormKeeps` | src/features/calendar/inMemoryCalendarPersistence.server.ts:118-133 | Opening a form where one is due starts it the day after the last end and loses no row |
| `RosterForms.CloseIs` | src/features/calendar/inMemoryCalendarPersistence.server.ts:372-417 | Field by field: earlier rows stay; a begun form keeps id and rules, starts at its effective start, ends that day with the record, and a new last row opens the next day with the requested rules, no record and the carried numbers; one not begun only takes the rules and numbers; the type takes the rules |
| `RosterForms.EndIs` | src/features/calendar/inMemoryCalendarPersistence.server.ts:418-437 | Field by field: earlier rows stay; a begun form is ended likewise, one not begun goes with its numbers; the type becomes a Group type |
| `RosterForms.EnsureOpenFormIs` | src/features/calendar/inMemoryCalendarPersistence.server.ts:118-133 | A person-assigned type without an open form gets one: from the day after the last end, or the current day, under the rules of the type; nothing else changes |
| `RosterForms.UpdateIs` | src/features/calendar/inMemoryCalendarPersistence.server.ts:230-246 | An update is refused exactly for turning a person-assigned type into a Group one; otherwise it changes the kind and opens a form if due |
| `RosterForms.ClosableIff` | src/features/calendar/inMemoryCalendarPersistence.server.ts:372-380 | Exactly which closing or ending gets which of the answers 400, 404, 409 or goes through |
| `RosterForms.EffectiveStartIs` | src/features/calendar/roster/rosterFormStart.ts:4-17 | The stored start holds once a form was closed or numbers were carried; before that the first duty day, if earlier |
| `RosterForms.ClosableIsLast` | src/features/calendar/roster/rosterFormStart.ts:4-17 | The form a closing names is the last row, and with a form before it its effective start is the stored one |
| `RosterForms.OpenIsLast` | src/features/calendar/inMemoryCalendarPersistence.server.ts:85-92 | Only the last row can be open |
| `RosterForms.LastEndIsLast` | src/features/calendar/inMemoryCalendarPersistence.server.ts:118-133 | The latest end of closed forms is that of the last row |
| `RosterExcusals.OpenExactlyWanted` | src/features/calendar/inMemoryCalendarPersistence.server.ts:345-370 | The open excusals become exactly the wanted person and reason pairs, at most one each |
| `RosterExcusals.UnwantedRows` | src/features/calendar/inMemoryCalendarPersistence.server.ts:353-361 | Of a person not wanted exactly these rows remain: what had ended, and what was open since before today, now ended yesterday with its person, reason and start |
| `RosterExcusals.WantedRows` | src/features/calendar/inMemoryCalendarPersistence.server.ts:353-369 | Of a wanted person exactly these rows remain: what had ended, and one open row under the wanted reason, since the start of the open one there was, or since today |
| `RosterExcusals.PastDaysKept` | src/features/calendar/inMemoryCalendarPersistence.server.ts:345-370 | Everyone is excused on a day before today afterwards exactly if they were before |
| `RosterExcusals.WantedOfIs` | src/features/calendar/inMemoryCalendarPersistence.server.ts:348 | The last mention of a person decides the wanted reason, trimmed |
| `RosterExcusals.RetryCompletes` | src/features/calendar/inMemoryCalendarPersistence.server.ts:345-370 | Any prefix of the writes followed by a whole run with the same input gives the rows of one whole run |
| `RosterExcusals.RepeatIsNoChange` | src/features/calendar/inMemoryCalendarPersistence.server.ts:345-370 | Repeating the command changes nothing |
| `RosterExcusals.RunIsSound` | src/features/calendar/inMemoryCalendarPersistence.server.ts:345-370 | Over every run in which today never goes back, no interval is empty and no two of a person overlap |
| `RosterExcusals.DisjointIffRoom` | src/features/calendar/inMemoryCalendarPersistence.server.ts:345-370 | For one command at any today, intervals stay disjoint exactly when nobody is added again on a day an ended excusal of theirs still covers |
| `RosterExcusals.GoingBackOverlaps` | src/features/calendar/inMemoryCalendarPersistence.server.ts:345-370 | A run in which today goes back one day makes two intervals of a person share a day |
| `RosterExcusals.FinalHoldsDays` | src/features/calendar/inMemoryCalendarPersistence.server.ts:345-370 | No command leaves an interval without a day |
| `RosterExcusals.SettleAgain` | src/features/calendar/inMemoryCalendarPersistence.server.ts:345-370 | Settled rows are not touched again and use up the same wanted reasons |
| `RosterSettings.RetryFinishesSave` | src/features/calendar/rosterSettingsOperations.server.ts:40-85 | A save stopped anywhere in its excusal writes or before its form close, sent again even on a later accepted day, ends with the excusals, rules and forms of one never stopped |
| `RosterSettings.RepeatedSaveIsNoChange` | src/features/calendar/rosterSettingsOperations.server.ts:40-85 | Sending a successful save again, on any later day that still accepts the device day, changes nothing, so it adds at most one form |
| `RosterSettings.UnchangedIsFinal` | src/features/calendar/rosterSettingsOperations.server.ts:51-65 | Where the save skips the excusal command, that command would have had nothing to do |
| `RosterSettings.NormalizeIsCanonical` | src/features/calendar/contracts.ts:143-155 | Two rule sets normalise alike exactly when their trimmed ranks and trimmed value sets are equal |
| `RosterSettings.NormalizeMeans` | src/features/calendar/contracts.ts:143-155 | Normalising keeps what a rule set says in each of its parts: the trimmed rank, and every trimmed value once and in order |
| `RosterSettings.NoRulesMeansEveryone` | src/features/calendar/contracts.ts:153-154 | A rule set normalises to none exactly when it constrains nothing |
| `RosterSettings.SavedRules` | src/features/calendar/rosterSettingsOperations.server.ts:31-85 | After the rules step the saved rules are the requested ones and the excusals are untouched |
| `RosterSettings.SaveIs` | src/features/calendar/rosterSettingsOperations.server.ts:40-85 | What a save leaves behind, part by part: the excusals of the command, and the roster as it was, or closed with the engine's record and counts, or rewritten with its own numbers |
| `RosterSettings.SaveGoesThrough` | src/features/calendar/rosterSettingsOperations.server.ts:40-85 | A save is refused exactly for a device day off by more than one or a Group type, and then changes nothing |
| `RosterSettings.SameRulesIff` | src/features/calendar/rosterSettingsOperations.server.ts:31-33 | Rules count as the same exactly when the weekend mode is and the pools say the same |
| `Da6Sheets.SheetsTileMonth` | src/features/calendar/da6Operations.server.ts:15-75 | The sheets of any month lie inside it, in ascending order, and share no day |
| `Da6Sheets.ClosedFormIsShown` | src/features/calendar/da6Operations.server.ts:22-48 | A closed form with duty is shown for exactly its days of the month whenever it has one |
| `Da6Sheets.OpenFormIsShown` | src/features/calendar/da6Operations.server.ts:28-41 | The open form has one sheet, from its effective start on, exactly if it has duty and begins by the end of the month; the sheet is closed exactly once the month is over |
| `Da6Sheets.DutilessIsHidden` | src/features/calendar/da6Operations.server.ts:22-67 | A form without duty, or without a day in the month, has no sheet |
| `RosterStore.Roster.CloseRosterForm` | src/features/calendar/inMemoryCalendarPersistence.server.ts:372-417 | The row-by-row command ends in exactly the state of the closing function, which it also states field by field, returns the id of the form open afterwards, and a refusal changes nothing |
| `RosterStore.Roster.EndRosterForm` | src/features/calendar/inMemoryCalendarPersistence.server.ts:418-437 | Likewise for ending, field by field, with its 400, 404 and 409 refusals |
| `RosterStore.Roster.EnsureOpenForm` | src/features/calendar/inMemoryCalendarPersistence.server.ts:118-133 | Inserts exactly the form that is due |
| `RosterStore.Roster.UpdateAssignmentType` | src/features/calendar/inMemoryCalendarPersistence.server.ts:230-246 | Changes the assignment kind and opens a form if one is due, or is refused and changes nothing |
| `RosterStore.Roster.SetRosterExcusals` | src/features/calendar/inMemoryCalendarPersistence.server.ts:345-370 | Writing row by row, it ends with the final rows, or after a prefix of the writes exactly if there was time for fewer than it takes: one per changed row and person added; refusals write nothing |
| `RosterStore.Roster.SettleRow` | src/features/calendar/inMemoryCalendarPersistence.server.ts:345-370 | One row: deleted, ended yesterday, relabelled or left, as the settling function says; left undone only when there is no write left |
| `RosterStore.Roster.SaveRosterSettings` | src/features/calendar/rosterSettingsOperations.server.ts:40-85 | Ends in exactly the state of the save function; cut off only for lack of writes or right before the form, which is then untouched, with a prefix of the excusal writes |
| `ReviewFailure.Session.Arm` | scripts/verification/environment.py:380-430 | Cut off anywhere, whatever others do, an owned constraint has a receipt naming it, on disk and durable; the saved name and request are reused; left alone with time enough it succeeds exactly for an admitted request without a foreign or altered constraint, and then there is one constraint, a check not yet validated and marked as the session's, that refuses to approve this request and nothing else; otherwise it is blocked with nothing changed |
| `ReviewFailure.Session.Restore` | scripts/verification/environment.py:380-430 | Beside a foreign constraint, or its own one altered by others, it is blocked and changes nothing; from any other state, its constraint dropped by others included, it leaves neither constraint nor receipt if left alone with time enough; its only change to constraints is dropping its own, unaltered and alone |
| `ReviewFailure.Session.Install` | scripts/verification/environment.py:408-417 | Receipt, constraint, read-back, armed receipt, each a possible last effect: armed implies the constraint is there unless others touched it |
| `ReviewFailure.Session.TakeBack` | scripts/verification/environment.py:418-427 | Receipt, drop, read-back, unlink, each a possible last effect, and complete after six |
| `ReviewFailure.Session.LosePower` | scripts/verification/environment.py:151-167 | Whichever of the old and the new receipt survives a loss of power, it accounts for every owned constraint |
| `ReviewFailure.Session.Elsewhere` | scripts/verification/environment.py:283-329 | Others may change any constraint between two steps, the owned one included; the receipt still accounts for what is owned |
| `ReviewFailure.Session.ArmTransaction` | scripts/verification/environment.py:283-308 | Adds the owned constraint exactly when no constraint exists and the request is as it was |
| `ReviewFailure.Session.RestoreTransaction` | scripts/verification/environment.py:309-328 | Drops the constraint exactly when it is the owned one, unaltered and alone; one altered by others stays |
| `ReviewFailure.Session.SaveReceipt` | scripts/verification/environment.py:151-167 | Temporary file, write, rename and directory sync are four effects: cut off before the last the old or the new receipt is there whole, and after it the new one is durable |
| `ReviewFailure.OnlyOwnIsAcceptable` | scripts/verification/environment.py:348-357 | The check refuses exactly when some constraint is foreign, altered or not the receipt's |
| `ReviewFailure.AlteredIsRefused` | scripts/verification/environment.py:348-357 | An altered constraint under the session's own name is refused, and so is any beside it |
| `JobReceipt.Job.CleanupOwnedProjects` | scripts/ci/database.py:441-496 | Refused with nothing changed while the producer of the job lives, and never finished while a listed project has a live process, which keeps its entry, directory and resources; otherwise, from every state a cut-off start or cleanup can leave, it finishes, with no directory or resource of any listed project left and the receipt gone last; it is never refused over what it left itself |
| `JobReceipt.Job.RemoveOwned` | scripts/ci/database.py:447-492 | On a receipt that has told the truth, removing the first project is only held up by a live process, which it then leaves alone, or by resources that do not go |
| `JobReceipt.Job.RemoveProject` | scripts/ci/database.py:447-492 | One project, with its refusals, a live process among them, that change nothing, and its order of effects: resources, resourcesAbsent saved, directory, entry; each is a possible last one |
| `JobReceipt.Job.Start` | scripts/ci/database.py:804-811 | Directory, configuration, receipt entry, resources, in this order and each a possible last effect, so a cut-off start leaves no resources unlisted |
| `JobReceipt.RemovalIsConsistent` | scripts/ci/database.py:484-490 | Losing the directory of a project whose resources are recorded as absent, partly or whole, keeps the receipt truthful |
| `SetupLinks.EveryRun` | src/features/identity/accountSetupLinks.server.ts:329-355 | After any run of issue, claim, complete, fail, cleanup and request changes: used or failed implies claimed, claimed excludes revoked, used excludes failed, at most one link of a request is open; and along any further run each link keeps every stamp and is never valid again once it was not |
| `SetupLinks.RunKeeps` | src/features/identity/accessRequestSetupDeliveryFixture.server.ts:71-108 | Every run of commands keeps those facts, loses no link and clears no stamp |
| `SetupLinks.ApplyKeeps` | src/features/identity/accessRequestSetupDeliveryFixture.server.ts:71-108 | Each single command, refused or not, keeps them |
| `SetupLinks.IssuedIsOnlyOpen` | src/features/identity/accountSetupFixtures.server.ts:49-64 | After an issue the new link is the only open one of its request |
| `SetupLinks.CleaningKeepsValid` | src/features/identity/accountSetupLinks.server.ts:666-677 | Cleaning up to now takes validity from no link and leaves open exactly the links that have not expired |
| `SetupLinks.IssuedIs` | src/features/identity/accountSetupFixtures.server.ts:44-64 | An approved, incomplete request with a live grant gets a link with the given times and no stamp, and its open links are revoked as replaced at that instant; nothing else changes |
| `SetupLinks.NewLinkIsValid` | src/features/identity/accountSetupLinks.server.ts:329-355 | A new link is valid until it expires |
| `SetupLinks.ClaimedIs` | src/features/identity/accessRequestSetupDeliveryFixture.server.ts:81-95 | A claim sets the claim stamp to its instant exactly on an unstamped, unexpired link of an approved, incomplete, granted request, and touches nothing else |
| `SetupLinks.CompletedIs` | src/features/identity/accessRequestSetupDeliveryFixture.server.ts:96-101 | Completing sets the use stamp to its instant, and nothing else |
| `SetupLinks.FailedIs` | src/features/identity/accessRequestSetupDeliveryFixture.server.ts:102-108 | Failing sets the failure stamp to its instant, and nothing else |
| `SetupLinks.CleanedIs` | src/features/identity/accountSetupLinks.server.ts:666-677 | Cleaning sets the revocation stamp to its instant and the reason to cleanup on unstamped links expired by the cutoff, and nothing else |
| `SetupLinks.LinkStore.IssueLink` | src/features/identity/accountSetupFixtures.server.ts:38-65 | Ends in exactly the state of the issue command, answers why if nothing was issued, and returns the ids of exactly the links it revoked |
| `SetupLinks.LinkStore.ClaimLink` | src/features/identity/accessRequestSetupDeliveryFixture.server.ts:81-95 | Stamps the claim exactly when the outcome is started, and changes nothing else |
| `SetupLinks.LinkStore.MarkCompleted` | src/features/identity/accessRequestSetupDeliveryFixture.server.ts:96-101 | Stamps a claimed link that is neither used, failed nor revoked, says whether there was one, and changes no other |
| `SetupLinks.LinkStore.MarkFailed` | src/features/identity/accessRequestSetupDeliveryFixture.server.ts:102-108 | Stamps a claimed link that is neither used nor failed, says whether there was one, and changes no other |
| `SetupLinks.LinkStore.RevokeExpiredUnused` | src/features/identity/accountSetupLinks.server.ts:666-677 | Revokes exactly the open links expired by the cutoff and counts them |
| `SetupLinks.NeverValidAgain` | src/features/identity/accountSetupLinks.server.ts:329-355 | A link that is not valid is not valid later either, whatever stamps it gains, and a used one stays used |
| `SetupLinks.ClaimStartsIffValid` | src/features/identity/accountSetupLinks.server.ts:476-501 | A claim starts exactly when the token check would answer valid for that link at that instant |
| `SetupLinks.ClaimAgreesIff` | src/features/identity/accessRequestSetupDeliveryFixture.server.ts:81-95 | For every link with stamps in order and every request, or none, the exact condition under which the claim and the token check tell the same outcome: with a live approved request only cleaned-up or unexplained revocations and a claim past its expiry differ, otherwise the claim judges the request before the link |
| `SetupLinks.RecoveryAgreesIff` | src/features/identity/accountSetupCompletion.server.ts:129-141 | The same for recovery with its request checks: it ignores the grant, wants an address, and tests approval before completion |
| `SetupLinks.SetupStateAgreesIff` | src/features/identity/accessRequestSetupState.server.ts:60-85 | The same for the read model, delivery included: it knows no grant, and calls every revocation a replacement and every unfinished claim claimed |
| `SetupLinks.PageAgreesIff` | src/features/identity/accountSetupRouteFlow.server.ts:324-388 | The same for the setup page, which judges the request before the link |
| `SetupLinks.ReadersAgree` | src/features/identity/accountSetupRouteFlow.server.ts:93-129 | Behind an approved, incomplete request with an address and a live grant all five readers tell one outcome for every link not revoked otherwise than by replacement and not claimed past its expiry |
| `SetupLinks.CompletedRequestReadsUsed` | src/features/identity/accessRequestSetupState.server.ts:60-70 | For a completed request the read model says used for every link, the token check only for used and otherwise valid ones |
| `SetupLinks.ActiveIffValid` | src/features/identity/accountSetupLinks.server.ts:679-691 | The count of active links counts exactly the valid ones |
| `CatalogOrder.LaneStore.SetCalendarLanes` | src/features/calendar/inMemoryCalendarPersistence.server.ts:295-312 | A change makes the lanes read back as requested exactly when the request names each once; unchanged exactly when they already read so, hence a repeated request is a no-op; each refusal has its exact condition and changes nothing |
| `CatalogOrder.PlacedLanesIff` | src/features/calendar/inMemoryCalendarPersistence.server.ts:302-311 | Placing types by their index in the request makes the list read back as requested exactly when it has no repeats |
| `CatalogOrder.StatusStore.SetStatusTypeOrder` | src/features/calendar/inMemoryCalendarPersistence.server.ts:182-194 | The order read back is the request exactly when every row left in place stays between those renumbered; with dense positions always, and they stay dense |
| `CatalogOrder.MovedOrderIff` | src/features/calendar/inMemoryCalendarPersistence.server.ts:187-191 | The same for the change as a function of the rows |
| `CatalogOrder.DenseMoves` | src/features/calendar/inMemoryCalendarPersistence.server.ts:187-191 | With dense positions every reordering reads back as requested and stays dense |
| `CatalogOrder.CreateKeepsDense` | src/features/calendar/inMemoryCalendarPersistence.server.ts:152-163 | A new status type reads last and keeps dense positions dense |
| `CatalogOrder.DeletionBreaksOrder` | src/features/calendar/inMemoryCalendarPersistence.server.ts:187-190 | Of four dense status types with the first deleted, a request for which the list reads back in another order than requested |
| `AvailabilityImport.AvailabilityStore.InsertReplacing` | src/features/calendar/inMemoryCalendarPersistence.server.ts:544-593 | The rows afterwards are the saved ones without those replaced, then one per accepted entry, in order, with its person, status, dates and note and a new id; row ids stay distinct, and the answer passes the acknowledgment check |
| `AvailabilityImport.AvailabilityStore.ImportEntries` | src/features/calendar/availabilityImport.server.ts:34-63 | added plus the errors is the number of entries, removed accounts for the rest of the change in rows, and there is one error per refused entry, in order, with the right reason |
| `AvailabilityImport.StaleIncrease` | src/features/calendar/calendarAvailabilityPersistence.server.ts:185-197 | Stale indices strictly increase, lie in range, and with the accepted entries make up all entries |
| `AvailabilityImport.StaleIndicesAre` | src/features/calendar/inMemoryCalendarPersistence.server.ts:556-584 | An index is stale exactly when its entry changed, duplicates a saved one, or overlaps one nobody looked at |
| `AvailabilityImport.AcceptedWasReviewed` | src/features/calendar/inMemoryCalendarPersistence.server.ts:556-584 | An accepted entry that does not keep its overlaps had every saved overlap reviewed unchanged or listed alongside, and duplicates none |
| `AvailabilityImport.AcceptedIff` | src/features/calendar/inMemoryCalendarPersistence.server.ts:553-584 | An entry is accepted exactly when all it replaces is unchanged and still overlaps it, nothing it overlaps has its status and dates, and, unless overlaps are kept, each overlap is replaced or listed alongside |
| `AvailabilityImport.OverlapsIffShareDay` | src/features/calendar/inMemoryCalendarPersistence.server.ts:568-571 | Two intervals that hold a day overlap exactly when they share one |
| `AvailabilityImport.ReplacedAre` | src/features/calendar/inMemoryCalendarPersistence.server.ts:586 | A row is deleted exactly when it is saved and an accepted entry that replaces its overlaps names it |
| `AvailabilityImport.ReplacedIsSmall` | src/features/calendar/calendarAvailabilityPersistence.server.ts:195-197 | No more rows are deleted than the entries list as replaced |
| `AvailabilityImport.WithoutIs` | src/features/calendar/inMemoryCalendarPersistence.server.ts:589-590 | The rows kept are exactly the others |
| `PlannerEncoding.EncodePlanner` | src/features/calendar/rosterPlannerOperations.server.ts:94-119 | Decoding what is sent gives back every track, person, count and effect; the shared tables hold each person and effect once, in order of first appearance, and none unused |
| `PlannerEncoding.PlannerTables.Flat` | src/features/calendar/rosterPlannerOperations.server.ts:112-113 | The triples of one standing encode its entries over the tables as they then are, which only grow at the end |
| `PlannerEncoding.PlannerTables.PersonAt` | src/features/calendar/rosterPlannerOperations.server.ts:100-104 | The index returned is where the table has the person, who is added only if missing |
| `PlannerEncoding.PlannerTables.EffectAt` | src/features/calendar/rosterPlannerOperations.server.ts:105-111 | Zero exactly for available, otherwise one more than the place of the effect, which is added only if missing |
| `PlannerEncoding.DecodesIffEncodes` | src/features/calendar/utils/plannerRosters.ts:41-52 | Whole triples decode to a list of entries exactly when they encode it, indices in range |
| `PlannerEncoding.EncodingIsUnique` | src/features/calendar/rosterPlannerOperations.server.ts:94-119 | Over tables without repeats a list of entries has only one encoding |
| `PlannerEncoding.KeyIsInjective` | src/features/calendar/rosterPlannerOperations.server.ts:107 | The text key tells any two effects apart |
| `PlannerEncoding.DecodeEntries` | src/features/calendar/utils/plannerRosters.ts:41-52 | The page's loop over triples reads what decoding means, for any list of numbers |
| `WorksheetNames.NameSheets` | src/features/data-export/organizationExportWorkbook.server.ts:42-50 | Over any list of sheets the names are pairwise distinct, legal, at most 31 characters, and each is the first name tried that no earlier sheet has |
| `WorksheetNames.SheetNames.ToWorksheetName` | src/features/data-export/organizationExportWorkbook.server.ts:192-203 | The loop ends, with the first name tried that is not in use, within one try more than the base and one per used name |
| `WorksheetNames.NumberedDiffer` | src/features/data-export/organizationExportWorkbook.server.ts:196-198 | Names with different counters differ, whatever the base |
| `WorksheetNames.NumberedIs` | src/features/data-export/organizationExportWorkbook.server.ts:196-198 | A numbered name is as much of the base as leaves room in 31 characters for a space and the counter, and those; counting starts at 2 |
| `WorksheetNames.BaseIs` | src/features/data-export/organizationExportWorkbook.server.ts:193 | The seven characters a name may not hold, and the base: the first 31 characters with those blanked, or Sheet |
| `WorksheetNames.DigitsRead` | src/features/data-export/organizationExportWorkbook.server.ts:196 | A counter is written in decimal without a leading zero |
| `WorksheetNames.NumberedFitsIff` | src/features/data-export/organizationExportWorkbook.server.ts:196-198 | A numbered name has at most 31 characters exactly while its counter has at most 30 digits |
| `WorksheetNames.TriedAtMost` | src/features/data-export/organizationExportWorkbook.server.ts:195-200 | At most two more names are tried than are in use, and that many only if the base is one of its own numbered names |
| `WorksheetNames.OneMoreIsEnoughIff` | src/features/data-export/organizationExportWorkbook.server.ts:195-200 | One more try than names in use is enough for every set of used names exactly when the base is not 31 characters ending in a space and a counter |
| `WorksheetNames.NoDigitsNoRepeat` | src/features/data-export/organizationDataExportManifest.server.ts:61-178 | A name without digits is none of its numbered names, so no section title of the export can be the exception |
| `WorksheetNames.RepeatingName` | src/features/data-export/organizationExportWorkbook.server.ts:195-200 | A 31-character name for which three tries are needed with one name in use |

## Left out

- PreferenceClient.AccountPreferencesState.SaveEnds: the two awaits of a save, the response and its body, are one step; an edit or a disposal between them is taken as coming before both.
- PreferenceClient.AccountPreferencesState.Quiesce: is about a client that writes alone; with other writers `PreferenceSync.IdleShowsRow` says what an idle client shows.
- PreferenceServer.NoLostUpdate: the row is never deleted in the protocol; a deletion between two calls would start the fold anew.
- ModuleBoundaries.CheckPrivilegeBoundaries: the patterns that classify paths and specifiers are parameters, and the text of a finding is a structured value, so two findings that differ only in how their text is joined stay apart.
- ModuleBoundaries.SourceCycles: the packets of a finding are not computed.
- RosterStore.Roster.CloseRosterForm: the checks and writes of one command happen without another command in between, as the SQL transaction they mirror guarantees.
- RosterSettings.RetryFinishesSave: the roster engine that computes a form's record and carried numbers is a parameter that gives the same answer to the same facts, and the key that compares excusals is a comparison of multisets.
- RosterForms.EveryRunTilesTime: one assignment type; the store keys every row by type, and the commands touch the rows of one.
- Da6Sheets.SheetsTileMonth: which forms had duty is a parameter, and day numbers stand for dates.
- JobReceipt.Job.CleanupOwnedProjects: whether a process is alive and whether stopping removes resources are inputs; the digest of a configuration is a value.
- ReviewFailure.Session.Restore: the constraint's SQL text is one value compared as a whole, a locked transaction is one step, and a receipt file changed by others is not modelled (it is private to the owner, and every field of it is validated on reading).
- SetupLinks.EveryRun: tokens, their hashes, failure reasons and the delivery records beside a link are not modelled; a request may change in any way between two commands.
- CycleFinder.Cycles: sorts names by their characters; JavaScript orders characters beyond the basic plane by their surrogates.
- AvailabilityImport.AvailabilityStore.ImportEntries: who may be changed is a predicate on persons.
- WorksheetNames.NameSheets: the length bound is stated for lists of fewer than 10^30 sheets, above which counters no longer fit; counters are exact integers, names differing only in case count as different, and a character beyond the basic plane, which JavaScript counts as two, counts as one.
- PlannerEncoding.EncodePlanner: the other parts of a planner roster (swaps, covered days, conflicts) are copied as they are.
- The findings about portable globals, exports and owners in the module check, which read syntax trees.
- The roster simulation, its pools and swaps.
- Policy decisions, audit entries, notifications, message texts, schema validation beyond the preference document.
- The other Supabase stores: each call is one atomic step with its committed effect.
- Sessions, cookies, token hashing, one-time passwords.
- Signals, ports and the inspection of processes and containers in the Python tools, and the staged runs of the database check.
- Editing and deleting status types, which change no order; their effect on dense positions is in `DeletionBreaksOrder`.
