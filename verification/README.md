# GO BAG: sync, relay and device state, verified

A GO BAG is an emergency bag whose checklist lives on a phone and on a Raspberry Pi in the bag. The phone
edits offline and syncs with the Pi, directly or through a relay server; the Pi also keeps item batches,
reads weight sensors over a serial line and runs a USB camera. This project models those parts in Dafny and
proves what they keep over all inputs and all runs.

| file | what it models |
|---|---|
| `Text.dfy`, `WordRules.dfy`, `Inventory.dfy`, `Categories.dfy` | string rules and what they keep of a text, item rows, the nine-field diff, identity keys, notes, category names |
| `SyncMerge.dfy`, `Bags.dfy`, `PiDatabase.dfy` | the Pi's tables and transactions: sync merge, single-bag collapse, item and bag requests |
| `Phone.dfy`, `Convergence.dfy`, `SyncRuns.dfy` | the phone's table and its side of a sync; what one phone and one Pi agree on after a sync and over whole runs; the two objects over a whole life |
| `Batches.dfy`, `Groups.dfy`, `InventoryRuns.dfy` | batch merging with conserved quantities and unique batches; the grouped inventory view; both over whole runs of requests |
| `RelayBlocks.dfy`, `RelayServer.dfy`, `RelayRuns.dfy` | the relay's locked blocks, its polling loops, and every interleaving of its threads |
| `ExactlyOnce.dfy` | relay redelivery, with copies in flight, composed with the sync merge |
| `Percent.dfy`, `TextFrame.dfy`, `Sensor.dfy`, `SensorManager.dfy` | fill percentage, the serial text block, and the sensor snapshot |
| `Camera.dfy`, `CameraManager.dfy` | camera sessions, their workers, and the session-id fences |
| `NmcliFields.dfy` | the escape-aware field splitter |

Tables are maps from id to row. A transaction, or a block under a lock, is one atomic step that reads the
clock once; a failed transaction changes nothing. Code that changes rows or fields in place is a class whose
methods are proved against functions on values, and the results over runs are lemmas about those functions.

## Main results

- Sync: `Convergence.SyncAgreesExactly`, `EveryRunStaysSettled` and `CleanRunsAgree` say what one phone and one Pi
  agree on after a sync and over all runs; `PhoneStore.PhoneTable.RunSyncNow` proves it of one sync of the two
  objects and `SyncRuns.RunTogether` of any sequence of requests, edits, choices and syncs.
- Merge: `PiDatabase.Database.MergeItems` with `SyncMerge.OneOutcomePerId`, `ReplyIsUniqueUpToOrder`,
  `MergeIsStrictlyNewer`, `VerdictInPlainTerms`, `ConflictReasonExactly`, `TombstoneNeverSilentlyMerged` and
  `ReplayWritesNothing`.
- One bag: `PiDatabase.Database.EnsureSingleBag`, `SurvivorInPlainTerms`, `EnsureTwice` and `Serve`.
- Batches: `InventoryRuns.ServeInventory`, from `Batches.EveryItemRun` and `Groups.GroupsPartitionLiveRows`;
  `Inventory.KeysEqualExactly` and `Batches.FoldsExactly` say which rows are one batch.
- Relay: `RelayRuns.RelayGuarantees`, `NothingReturnsToPending`, `AnsweredUntilGiveUp`, `ExpiredUntilAnswer` and
  `NotFoundOnlyAfterDeadline`; `RelayServer.Relay.WaitForResponse` and `PiPoll` are the two loops as runs of it.
- Relay and sync together: `ExactlyOnce.RedeliveryIsExactlyOnce`, `AfterExit` and `SafeAfterExitExactly`.
- Sensor: `Sensor.SnapshotsStayConsistent`, `EventsInPlainTerms`, `StaleUntilNextReading` and
  `TextReadingsAreSound`; `Percent.MeasuredShowsWeights` and `TotalIsNearExact`.
- Camera: `Camera.ShownBelongsToItsSession`, `SupersededWorkerIsInvisible` and `DecodedSessionIsFrozen`.
- Fields: `NmcliFields.SplitInvertsJoin` and `FieldCount`.

## Assumptions

- The Pi's and the relay's clocks never run backwards. Sync times are positive, as are the stamps of rows that
  exist at first pairing, and generated ids are fresh. Edits may carry any stamp: an edit stamped no later than
  the phone's baseline makes its id doubtful.
- Between two executions of one relayed sync, the Pi's edits are stamped past its baseline and not before the
  phone's version of the row. Moving items to the surviving bag counts as an edit of those items by the Pi.
- Bag ids are trimmed and not empty. The phone is paired with its selected bag only, and sends rows
  of that bag only.
- The phone's rows carry one of the six category names and an expiry in milliseconds only. `upsert_item`
  rewrites other categories and takes an expiry from a date; `diff_item` looks at neither.
- The Pi answers a relayed sync with status 200 only after its transaction committed.
- On the relay, a hash is a value that can only be compared, and a poll that finds several equally old
  requests may hand out any of them.
- In a text block, each serial line has already been told apart by its pattern. Weights and quantities are
  real numbers; only the final percentage is rounded.

## What the proofs found

Where the code and its documentation or evident intent differ, the model follows the code.

- *Packed latest wins* does not always win. If both sides changed only the packed status and the Pi's copy is
  not older, the Pi reports the id as resolved and returns its row, but the phone keeps its own changed row
  (`GoBagItemRepository.kt:54-57`), so the two disagree. `Convergence.SyncAgreesExactly` says for each id
  exactly when a sync makes it agree, and `Convergence.PackedStatusExample` is a concrete pair of rows.
- An unresolved conflict is dropped from the phone's conflict table by the next sync while the copies go on
  disagreeing (`Convergence.UnresolvedConflictIsForgotten`): after each sync the table holds exactly the ids
  that both sides changed again (`Convergence.ConflictReportedExactly`). A conflict closes if exactly one side
  edits the id again (`Convergence.OneSidedEditCloses`), and so by either choice the app offers
  (`Convergence.ChoicesCloseConflicts`).
- When a sync reply is lost, the phone adopts the Pi's later sync time before it tries again, so the rows the
  Pi was sending back are not sent again, unless the phone still syncs from zero
  (`Convergence.LostReplyHidesPiRow`).
- An edit on a phone whose clock lags is not carried by any sync if its stamp is no later than the baseline. The
  Pi's row stays as it was; if that row had changed it overwrites the edit, and otherwise the two go on
  disagreeing (`Convergence.LateEditIsNotCarried`).
- If both sides changed the bag row and the Pi's is newer, each keeps its own (`PhoneStore.BagAgreesExactly`).
  By then the collapse has given the Pi's row the name, template and size of a sound bag the phone sent
  (`PhoneStore.CollapseHonoursSentBag`), so the two can differ only in how that size is stored.
- A relayed sync may still be committed after the phone was told that it timed out. The Pi runs a copy some
  time after the relay handed it over, and nothing ties that to the waiter's deadline
  (`ExactlyOnce.LateExecutionHappens`). After the wait is over the sync can change nothing exactly when no copy
  is in flight or the items already reflect it (`ExactlyOnce.SafeAfterExitExactly`), and otherwise it takes
  effect at most once (`ExactlyOnce.AfterExit`).
- A bag whose readiness is stored as empty text is rewritten and restamped by every collapse
  (`Bags.SettlingOnceIsEnough`); for every other bag the second collapse changes nothing.
- Items of a bag that does not exist are never moved to the surviving bag
  (`PiDatabase.CollapseHomesEveryItemExactly`).
- A bar in an item's name can be mistaken for the one that joins name and unit in the identity key, so two
  identities can be folded into one batch (`Inventory.BarsCollide`). Names that hold equally many bars, as
  those that hold none, never collide (`Inventory.KeysEqualExactly`).
- A phone thread kept from running between reading its deadline and comparing it may time out without one look
  at its row (`RelayServer.Relay.WaitForResponse`).
- On the relay neither responded nor expired is final (`RelayRuns.ExpiredRowAnswered`,
  `RelayRuns.AnsweredRowExpires`). A responded row leaves that status exactly when its own waiter gives up at the
  deadline (`RelayRuns.AnsweredUntilGiveUp`), an expired row exactly when its own authentic Pi answers it
  (`RelayRuns.ExpiredUntilAnswer`), and no row ever returns to pending (`RelayRuns.NothingReturnsToPending`).
- The footer of a sensor text block never completes a reading: the fifth section line has already done so, and
  a footer that comes earlier finds a section missing (`TextFrame.CompletesExactly`).
- A camera session stopped without clearing its state can show exactly one more frame if its worker was past
  the fence at the top of its loop, and none otherwise (`Camera.AtMostOneFrameAfterStop`,
  `Camera.OneFrameAfterStopHappens`); such a state is reached (`Camera.StoppedLateHappens`).

## Model

| member | source | states |
|---|---|---|
| Categories.NamesAreFixedPoints | pi-server/main.py:1803-1827 | every canonical category name is read back as its own category |
| Categories.NormalizeIsIdempotent | pi-server/main.py:1803-1827 | normalising a category twice is normalising it once, for any text |
| Categories.RankIsAlphabetical | pi-server/main.py:4776 | the order of categories in the inventory view is that of their names |
| Categories.ParsedCategoriesStandForText | pi-server/main.py:1803-1827 | the categories used by the merge compare equal exactly when their texts do, and normalise as the texts do |
| Inventory.KeyIgnoresOuterSpace | pi-server/main.py:3704-3711 | the identity key is the same for a raw and a stored (stripped, normalised) name, unit and category |
| WordRules.CanonicalExactly | pi-server/main.py:3704-3711 | two texts have one canonical form exactly when they are the same sequence of words, up to case, whatever white space is around and between them |
| WordRules.WordsAreUnique | pi-server/main.py:3704-3711 | a text has only one sequence of words: runs free of white space, with white space before, between and behind them |
| WordRules.StripKeepsCore | pi-server/main.py:3704-3711 | stripping takes white space off both ends and nothing else |
| Text.LexExactly | pi-server/main.py:4776 | a text is sorted before another exactly when it is an initial part of it or has the smaller code point at the first difference |
| Inventory.KeysEqualExactly | pi-server/main.py:3704-3711 | rows have one identity (same words in name and unit, same normalised category) exactly when they have one key and their names hold equally many bars |
| Inventory.BarsCollide | pi-server/main.py:3704-3711 | for any three words, a name of the first two joined by a bar with the third as unit has the key of the first as name with the other two, joined by a bar, as unit; they are two identities |
| Inventory.MergedNotesAbsorbsRepeats | pi-server/main.py:3714-3721 | merging the same note a second time adds nothing |
| Inventory.DiffItem | pi-server/main.py:3601-3614 | the list-based diff answers: same content; same content but for packed status; deletion differs together with another field |
| Inventory.DiffMeaning | pi-server/main.py:3601-3614 | those three answers in terms of the list of differing fields, both ways |
| Inventory.MergedNotesKeepBoth | pi-server/main.py:3714-3721 | merged notes are trimmed and contain both notes, up to the case of the incoming one |
| SyncMerge.StoredItemReadsBackExactly | pi-server/main.py:1929-1971 | a stored item reads back as sent exactly when its category is canonical and no expiry date text is used; otherwise only those two change |
| SyncMerge.NewRowFromPhone | pi-server/main.py:1929-1971 | every column of the row of an item new to the Pi: as sent, and not essential, minimum zero, condition good, created at the phone's stamp |
| SyncMerge.MergeIsStrictlyNewer | pi-server/main.py:5553-5593 | no id disappears, exactly the sent ids are added, and a replaced row always gets a strictly larger stamp |
| SyncMerge.VisitedIsEnough | pi-server/main.py:5553-5574 | the loop over the sent and changed ids gives the table and reply of a loop over all ids |
| SyncMerge.MergeKeepsLocalColumns | pi-server/main.py:1959-1971 | a merge keeps every item's essential flag, minimum quantity, condition and creation time |
| SyncMerge.VerdictInPlainTerms | pi-server/main.py:5553-5593 | when an id's row is taken from the phone, returned, or reported as a conflict, each exactly, from the stamps and contents of the two rows |
| SyncMerge.ConflictReasonExactly | pi-server/main.py:5587-5593 | each reported conflict gives deletion against edit as its reason exactly when one side deleted the row and something else differs too |
| SyncMerge.TombstoneNeverSilentlyMerged | pi-server/main.py:5565-5593 | a deleted and a live version that both changed always conflict, with the reason that fits, and the row stays |
| SyncMerge.AutoResolvedExactly | pi-server/main.py:5580-5586 | an id is auto-resolved exactly when both sides changed it and packed status is the one difference |
| SyncMerge.OneOutcomePerId | pi-server/main.py:5529-5593 | no id is returned twice, reported twice, or both; ids in either list are not written; a conflict is not auto-resolved |
| SyncMerge.ReplyIsUniqueUpToOrder | pi-server/main.py:5553-5593 | two replies to one request differ at most in the order of their lists, whatever order the ids were visited in |
| SyncMerge.ReplayWritesNothing | pi-server/main.py:5553-5593 | running a request again writes nothing, also after edits stamped past its baseline and not before the phone row |
| Bags.SettlingOnceIsEnough | pi-server/main.py:2090-2137 | after one settling a bag needs no more, exactly unless its readiness is empty text |
| Bags.MigrationSettles | pi-server/main.py:2850-2901 | startup leaves only supported sizes, templates and types, and migrating again changes nothing |
| Bags.DefaultNamesExactly | pi-server/main.py:1603-1612 | the default names are six names in any case and spacing, and the names given to new bags are among them |
| Bags.SizeSurvives | pi-server/main.py:2090-2091 | the size a bag ends up with: the wished one if supported, else 66 litres if it has that, else 46 |
| Bags.NameSurvives | pi-server/main.py:2092-2101 | the name a bag ends up with: the wished one if not blank, else its own unless that is blank or a default name whose size changes, else the default name of its size |
| Bags.FreshBagInPlainTerms | pi-server/main.py:2055-2076 | a bag made when there is none has the wished name and size, or the defaults for a blank name and an unsupported size |
| Bags.RankMeans | pi-server/main.py:2008-2019 | the first-ranked bag holds most live items, then has the default size, then is oldest, then first by name; equal ranks only for equal keys |
| PiDatabase.Database.PreferredSingleBag | pi-server/main.py:1974-2019 | none exactly when there is no bag; otherwise the caller's, recorded, default or first-ranked bag, in that order; a bag chosen by rank holds at least as many live items as any other |
| PiDatabase.SurvivorInPlainTerms | pi-server/main.py:1974-2019 | a wanted bag that is there survives, the caller's before the recorded before the default one; with none there, no bag holds more live items than the survivor, and default size and age break ties |
| PiDatabase.OnlyLiveRowsChooseTheBag | pi-server/main.py:1978-1983 | deleted items, and all about an item but its bag, have no say in which bag survives |
| PiDatabase.Database.RenameBagId | pi-server/main.py:2022-2043 | moves exactly the renamed bag's items and restamps them; drops the bag if the target exists, renames it otherwise; does nothing in the no-op cases |
| PiDatabase.Database.EnsureSingleBag | pi-server/main.py:2046-2148 | exactly one bag (the caller's id when given), recorded and default, with the wished or its own name; same item ids, contents changed only in bag id and stamp; nothing changes if one settled bag was there |
| PiDatabase.CollapseHomesEveryItemExactly | pi-server/main.py:2078-2088 | every item ends in the surviving bag exactly when no item belonged to a missing bag |
| PiDatabase.EnsureTwice | pi-server/main.py:2046-2148 | collapsing twice with the same arguments changes no bag and no item the second time, if no readiness is empty text |
| PiDatabase.Database.MergeBags | pi-server/main.py:5534-5551 | the bag is taken from the phone exactly when it changed and is not older, and returned exactly when the Pi's changed and the phone's is missing or older |
| PiDatabase.LastItemCounts | pi-server/main.py:5521-5525 | of a request's rows for one item in the bag, the last one is merged |
| PiDatabase.OnlySentItemsCount | pi-server/main.py:5521-5525 | an id is merged only if the request has a row for it in the bag |
| PiDatabase.WhichBagRowCounts | pi-server/main.py:5508-5520 | of a request's rows for one bag, the first says the wished name and size and the last is merged |
| PiDatabase.Database.MergeItems | pi-server/main.py:5553-5593 | visiting the ids in any order gives the one merged table, a reply that matches the verdicts on all ids, and the right reason with each conflict |
| PiDatabase.Database.RunSync | pi-server/main.py:5493-5608 | a whole sync: the bag settled on the request, the merged items and bag, both lists of the reply and the sync time, columns the phone lacks kept; with no orphan items before, one bag holds every item after |
| PiDatabase.Database.FindExactMatch | pi-server/main.py:3724-3742 | the most recently updated live row of the same bag, identity and expiry, other than the edited one; none exactly when there is none |
| PiDatabase.Database.MergeOrWriteItem | pi-server/main.py:3745-3799 | the error for each rejected request with nothing changed, else the table after the one write it amounts to; an edited row that lands on another is deleted and stamped |
| PiDatabase.Database.CreateItem | pi-server/main.py:5318-5327 | succeeds exactly for a named item with a unit in an existing bag with a known category and readable expiry |
| PiDatabase.Database.UpdateItem | pi-server/main.py:5330-5340 | succeeds exactly when the item also exists, and then edits it in its own bag |
| PiDatabase.Database.DeleteItem | pi-server/main.py:5343-5358 | sets the deletion flag, the stamp, read during the call, and its author, and changes nothing else, or reports the item missing |
| PiDatabase.Database.UpdateBag | pi-server/main.py:5288-5298 | the error for each rejected request with nothing changed; any other request succeeds and renames and resizes the one surviving bag |
| PiDatabase.Database.InitDb | pi-server/main.py:2849-2925 | startup ends with one recorded and default bag, newly made or the migrated and settled survivor; with no orphan items it holds every item |
| PiDatabase.Serve | pi-server/main.py:2849-2925 | after startup and any sequence of requests there is exactly one bag, and every item belongs to it |
| PhoneStore.PhoneTable.ApplyServerItems | android-app/data/repository/src/main/java/com/gobag/data/repository/GoBagItemRepository.kt:54-57 | applying the returned rows one by one overwrites exactly the rows the phone has not changed since the baseline |
| PhoneStore.PhoneTable.BuildRequest | android-app/data/repository/src/main/java/com/gobag/data/repository/GoBagSyncRepository.kt:183-220 | the request carries exactly the phone's rows stamped after the baseline, and its bag if that is, with 25 and 44 litres sent as 46 and the template of a known size |
| PhoneStore.BagAgreesExactly | pi-server/main.py:5534-5551 | after a sync phone and Pi show the same bag, as the app reads sizes and templates, exactly when they did before, the phone's row was taken, or only the Pi's had changed |
| PhoneStore.CollapseHonoursSentBag | pi-server/main.py:5497-5513 | whatever bags the Pi had, before stamps are compared its bag shows the name, template and size of the sound bag the request carries |
| PhoneStore.PhoneTable.ReceiveReply | android-app/data/repository/src/main/java/com/gobag/data/repository/GoBagSyncRepository.kt:217-240 | the phone's items, bag, conflicts and sync time after a reply, of which it looks only at the rows of its bag |
| PhoneStore.PhoneTable.RunSyncNow | android-app/data/repository/src/main/java/com/gobag/data/repository/GoBagSyncRepository.kt:164-240 | phone and Pi together, for every phone and Pi: items and bag on both sides after an arriving and after a lost reply; an id whose Pi row is in the phone's bag agrees exactly when it was neither quietly disagreeing nor clashing; without orphan items both outcomes are steps of the run model |
| PhoneStore.SyncIsAStep | android-app/data/repository/src/main/java/com/gobag/data/repository/GoBagSyncRepository.kt:164-240 | one sync of the phone and Pi objects is one sync step of the run model |
| SyncRuns.Act | android-app/data/repository/src/main/java/com/gobag/data/repository/GoBagSyncRepository.kt:64-240 | one request on the Pi, edit or choice on the phone, or sync is a run of the model and keeps the two paired |
| SyncRuns.RunTogether | pi-server/main.py:5268-5608 | over any sequence of these the two objects go through a run of the model and keep its invariant; after a last arriving sync an id agrees exactly outside the doubtful ids |
| Convergence.SyncAgreesExactly | pi-server/main.py:5553-5593 | after a sync whose reply arrives, an id agrees in all nine fields exactly when it was not left alone while disagreeing and did not clash |
| Convergence.LostReplyAgreesExactly | pi-server/main.py:5553-5600 | after a sync whose reply is lost, an id agrees exactly when it agreed before or the Pi took the phone's row |
| Convergence.NewerPiPackedStatusNeverReachesPhone | pi-server/main.py:5580-5586 | a packed-status difference resolved for the Pi leaves the phone disagreeing |
| Convergence.PackedStatusExample | pi-server/main.py:5580-5586 | two concrete rows one millisecond apart that end disagreeing, and that agree once the phone's is the newer |
| Convergence.EmptyPhoneIsRefilled | android-app/data/repository/src/main/java/com/gobag/data/repository/GoBagSyncRepository.kt:176-182 | a phone that lost its rows agrees with the Pi on every id after one sync, however long ago it last synced |
| Convergence.SyncSettlesExactly | pi-server/main.py:5493-5608 | a sync leaves exactly the stuck ids disagreeing, and outside the doubtful ids only a clash makes an id stuck |
| Convergence.EveryRunStaysSettled | pi-server/main.py:5493-5608 | over every run of edits, syncs, lost replies and choices, ids outside the doubtful ones that neither side changed since the baseline agree |
| Convergence.SyncAfterAnyRun | pi-server/main.py:5493-5608 | from first pairing, after any run, the next sync leaves disagreeing exactly the ids that can be named before it |
| Convergence.CleanRunsAgree | pi-server/main.py:5493-5608 | after any run from first pairing in which no reply is lost and no sync clashes, a sync leaves every id agreeing |
| Convergence.OneSidedEditCloses | pi-server/main.py:5565-5572 | an id left disagreeing agrees after the next sync when exactly one side edited it in between |
| Convergence.ConflictReportedExactly | android-app/data/repository/src/main/java/com/gobag/data/repository/GoBagSyncRepository.kt:230-240 | after a sync the phone's conflict table holds an id exactly when both copies changed since the baseline and differ in more than packed status |
| Convergence.UnresolvedConflictIsForgotten | android-app/data/repository/src/main/java/com/gobag/data/repository/GoBagSyncRepository.kt:230-240 | a conflict nobody resolves is gone from the phone's table after the next sync, and the copies still disagree |
| Convergence.ChoicesCloseConflicts | android-app/data/repository/src/main/java/com/gobag/data/repository/GoBagSyncRepository.kt:64-79 | a reported conflict closes at once by taking the Pi's version and at the next sync by keeping the phone's |
| Convergence.LateEditIsNotCarried | android-app/data/repository/src/main/java/com/gobag/data/repository/GoBagSyncRepository.kt:183 | a phone edit stamped no later than the baseline leaves the Pi's row as it was; after the sync the id agrees exactly if the Pi's row had changed, which overwrites the edit, or already agreed |
| Convergence.LostReplyHidesPiRow | android-app/data/repository/src/main/java/com/gobag/data/repository/PiConnectionManager.kt:244-268 | after a lost reply a row the Pi was sending back reaches the phone at the next sync exactly if the phone still syncs from zero; from the old baseline it would have |
| Batches.WriteConservesQuantity | pi-server/main.py:3745-3799 | the payload's quantity replaces the edited row's live quantity in the total, in all four cases |
| Batches.WrittenRowShowsRequest | pi-server/main.py:4837-4891 | the row written is live, shows what the request asked for, and keeps its creation time |
| Batches.FoldingLosesNothing | pi-server/main.py:3774-3787 | folding into a batch adds quantities, keeps flags and both notes, and takes the larger minimum |
| Batches.FoldingKeepsCondition | pi-server/main.py:3785 | the condition is the requested one, or else the batch's, or else good |
| Batches.MatchExactly | pi-server/main.py:3724-3742 | a live row of the bag with the same expiry matches exactly as its name, unit and category have the words and category asked for, but for names with other numbers of bars |
| Batches.FoldsExactly | pi-server/main.py:3753-3774 | a request lands on a batch whenever there is one like it, the latest at the earliest, and only on one like it unless the names hold other numbers of bars |
| Batches.WriteTouchesTwoRows | pi-server/main.py:3773-3799 | a write changes the row it lands on and, if that is another, the edited one, which is deleted and stamped; every other row stays |
| Batches.WriteKeepsBatchesUnique | pi-server/main.py:3745-3799 | at most one live row per bag, identity and expiry is kept by every create and edit |
| Batches.EveryItemRun | pi-server/main.py:5318-5358 | over every run of creates, edits and deletes batches stay unique and the live total is the old one plus what the requests asked for |
| Groups.BuildInventoryGroups | pi-server/main.py:4748-4776 | one group for each identity among the rows, made of all rows of that identity, sorted by category and name; the group totals add up to the rows' total |
| Groups.GroupShowsRows | pi-server/main.py:4755-4775 | a group lists each row of its key as often as it occurs, in order; the first gives bag, name and unit, the quantities add up, and all share its category |
| Groups.GroupsAreIdentities | pi-server/main.py:4749-4751 | two rows are of one identity exactly when they are in one group and their names hold equally many bars |
| Groups.SortSorts | pi-server/main.py:4756 | each group is ordered by expiry, then lower-cased name, and holds the same rows |
| Groups.SoonestExpiryFirst | pi-server/main.py:4756 | in a group the rows that expire come first, soonest first |
| Groups.GroupTotalsAddUp | pi-server/main.py:4755-4766 | the group totals add up to the total of the rows |
| Groups.GroupsPartitionLiveRows | pi-server/main.py:4748-4776 | each live row is in the group of its identity only, expiries in a group are distinct, and the group totals add up to the table total |
| Groups.ListedQuantityIsTotal | pi-server/main.py:4748-4776 | the listed live rows of the one bag add up to the live total of the table |
| InventoryRuns.ServeItem | pi-server/main.py:5288-5358 | one item or bag request changes the items exactly when it is accepted, by the one event it asked for |
| InventoryRuns.ServeInventory | pi-server/main.py:5288-5358 | from an empty table any item and bag requests keep batches unique and move the live total by the accepted requests, and the groups built from the table add up to it |
| RelayServer.Relay.AuthenticatePi | relay-server/main.py:142-205 | accepts exactly the registered secret or, for an unknown Pi, the bootstrap secret, registers the Pi in that case, and stamps it as seen now |
| RelayServer.Relay.CleanupOldRequests | relay-server/main.py:129-139 | deletes exactly the finished rows not touched for the retention time |
| RelayServer.Relay.EnqueueRequest | relay-server/main.py:244-262 | refuses exactly for an offline Pi, and else inserts the request with each value in its own column; one step of the run model |
| RelayServer.Relay.ClaimPendingRequest | relay-server/main.py:208-241 | hands out an oldest pending request whose lease has run out, leases it from now and changes no other row, or none exactly when there is none |
| RelayServer.LookTells | relay-server/main.py:268-285 | what a look at the row tells the waiter: missing, the stored code and body, expired, Pi offline, or nothing yet, each exactly |
| RelayServer.Relay.LookAtRow | relay-server/main.py:267-285 | a look gives that answer, expires a row whose Pi is offline, and is one step of the run model |
| RelayServer.Relay.PiRespond | relay-server/main.py:363-382 | stores exactly an authentic answer to an own row, whatever the row's status; one step of the run model |
| RelayServer.Relay.WaitForResponse | relay-server/main.py:265-293 | the loop is a run of the step relation whatever other threads do in its gaps: every look but the last found the request waiting and its Pi online, the last one gives the answer it found there, and only a wait past its deadline times out; at most ceil(timeout/150) looks; a returned answer is signed by its Pi |
| RelayServer.Relay.PiPoll | relay-server/main.py:344-360 | so is this loop: every round but the last had nothing to hand out, a round that has something hands out the oldest and leases it, and an authentic Pi leaves empty-handed only past its deadline or when asked not to wait; at most ceil(timeout/400)+1 rounds |
| RelayRuns.NothingReturnsToPending | relay-server/main.py:265-382 | no step ever sets a stored row back to pending or delivers a row that is not |
| RelayRuns.AnsweredUntilGiveUp | relay-server/main.py:287-292 | a responded row leaves that status exactly when its own waiter gives up at the deadline |
| RelayRuns.ExpiredUntilAnswer | relay-server/main.py:363-381 | an expired row leaves that status exactly when its own authentic Pi answers it |
| RelayRuns.OverdueHappens | relay-server/main.py:208-293 | a concrete run: a request is handed to its Pi once and reaches its deadline unanswered |
| RelayRuns.ExpiredRowAnswered | relay-server/main.py:363-381 | from there, a concrete run that answers the row after it expired |
| RelayRuns.AnsweredRowExpires | relay-server/main.py:287-292 | from there, a concrete run that expires the row after it was answered |
| RelayRuns.NoDeliveryAfterExit | relay-server/main.py:208-293 | once a wait has returned or raised, its request is never handed out again |
| RelayRuns.LeasesStayHeld | relay-server/main.py:208-241 | deliveries of one request stay at least a lease apart |
| RelayRuns.DeliveriesBounded | relay-server/main.py:208-241 | n deliveries before the waiter leaves at T need n-1 leases before T; one if T comes before the first lease ends |
| RelayRuns.HashNeverChanges | relay-server/main.py:142-205 | the secret hash fixed at registration never changes, and no stored response is forgotten |
| RelayRuns.AnswersStaySigned | relay-server/main.py:265-275 | every answered row and every returned answer was stored by a respond step of the same Pi with the registered hash |
| RelayRuns.LooksBounded | relay-server/main.py:265-285 | a wait looks at most ceil(timeout/150) times in every interleaving |
| RelayRuns.RowStaysKept | relay-server/main.py:129-131 | the row of an unfinished wait is there, and not expired, until the retention time has passed since it was inserted |
| RelayRuns.NotFoundOnlyAfterDeadline | relay-server/main.py:129-131 | with timeout at most retention and the wait starting at once, cleanup never deletes a row before the waiter's deadline |
| RelayRuns.EveryRunIsSound | relay-server/main.py:129-382 | all of these hold in every state of every interleaving |
| RelayRuns.RelayGuarantees | relay-server/main.py:129-382 | from an empty relay: a finished wait is never delivered again, its deliveries are bounded, and its answer is signed by its own Pi |
| ExactlyOnce.RedeliveryIsExactlyOnce | pi-server/main.py:2605-2668 | however often a sync is delivered and later run or lost, with edits in between, the items end as if only the first execution had taken effect |
| ExactlyOnce.ItemsAfterRun | pi-server/main.py:2605-2668 | the items after any run: the Pi's edits in order, with the sync merged in once where it was first run, unless it had been run before |
| ExactlyOnce.MergeChangesNothingExactly | pi-server/main.py:5553-5593 | merging a request changes nothing exactly when the table already reflects it |
| ExactlyOnce.ExecutionsWereDelivered | relay-server/main.py:208-241 | executions and copies held never outnumber the deliveries by the relay |
| ExactlyOnce.SuccessfulAnswerMeansExecuted | pi-server/main.py:2640-2668 | a waiter that got status 200 can rely on the sync having been executed |
| ExactlyOnce.NoNewCopyAfterExit | relay-server/main.py:208-293 | after the wait is over no copy is handed over; only copies then in flight can still be run, and none if there are none |
| ExactlyOnce.AfterExit | pi-server/main.py:2612-2668 | after the wait is over: if the sync had been run or no copy is in flight only edits change the items; otherwise at most one late execution takes effect |
| ExactlyOnce.SafeAfterExitExactly | pi-server/main.py:2612-2668 | after the wait is over the sync can change nothing, in every run without edits, exactly when no copy is in flight or the items already reflect it |
| ExactlyOnce.CopyInFlightAtDeadline | pi-server/main.py:2612-2628 | a concrete run to the deadline with one copy in flight |
| ExactlyOnce.LateExecutionHappens | pi-server/main.py:2631-2668 | from there the phone is told that it timed out, and then the Pi runs the sync and stores the phone's row |
| ExactlyOnce.ServeTwice | pi-server/main.py:5493-5608 | the Pi serving one request twice changes no item the second time, also when the first run had to collapse or rename bags |
| Percent.RoundIsNearestEven | pi-server/main.py:1051 | rounding gives the nearest integer, and from halfway the even one |
| Percent.FillInPlainTerms | pi-server/main.py:1029-1036 | a section is empty below its threshold, full from its full weight on, and in between filled to its share of the full weight |
| Percent.MeasuredShowsWeights | pi-server/main.py:1026-1050 | each section shows its weight, detection and points, and the exact percentage is the sum of the five sections' points |
| Percent.ExactIsTwentyTimesShares | pi-server/main.py:1029-1050 | for weights between threshold and full weight the exact percentage is 20 times the sum of weight over full weight, one kilogram standing for zero |
| Percent.FillIsMonotone | pi-server/main.py:1029-1036 | a section is filled between 0 and 1, and never less by more weight |
| Percent.TotalIsNearExact | pi-server/main.py:1050-1051 | the percentage lies in 0..100 and within half a point of the exact sum, for any weights and scales |
| Percent.TotalIsMonotone | pi-server/main.py:1026-1051 | more weight on any sections never lowers the percentage |
| Percent.FullExactly | pi-server/main.py:1026-1051 | the exact value is 100 exactly when every section holds its full weight and reaches its threshold |
| TextFrame.FrameTellsPending | pi-server/main.py:845-891 | after any lines the frame holds exactly what the section lines since the last reset say, and fewer than five sections are pending |
| TextFrame.CompletesExactly | pi-server/main.py:807-891 | a line completes a reading exactly when it is the fifth distinct section since the last reset and none reported a problem; the weights are the last reported |
| TextFrame.BrokenExactly | pi-server/main.py:807-891 | a frame is given up exactly by an early footer or by a fifth section with a problem, and a line is left to the other parsers exactly when no frame is open and it is a footer or other text |
| TextFrame.AnyOrderGivesTheSameWeights | pi-server/main.py:854-879 | five good section lines give the same weights in any order, with any other text between them |
| Sensor.SnapshotsStayConsistent | pi-server/main.py:684-750 | over every event sequence: available iff live, connected iff not disconnected, the two times equal, and a percentage is the rounded capped sum of the sections shown with it |
| Sensor.EventsInPlainTerms | pi-server/main.py:1075-1194 | the state, flags and stamp each event shows; a silent read turns a live or connecting state stale exactly once the timeout has passed, and else changes nothing |
| Sensor.LinesInPlainTerms | pi-server/main.py:845-964 | a line that brings no reading shows connecting when it gives a frame up, keeps a live or stale state when its payload is bad, and else changes nothing |
| Sensor.NothingReadNothingShown | pi-server/main.py:684-722 | until something is read the five sections are shown as configured, without weights |
| Sensor.OnlyReadingsChangeWhatIsShown | pi-server/main.py:1075-1194 | no other transition changes the reading shown or makes the state live |
| Sensor.WithoutReadingsNothingNewIsShown | pi-server/main.py:1075-1194 | the same over whole runs |
| Sensor.StaleUntilNextReading | pi-server/main.py:1120-1150 | a stale check past the timeout ends the live state until the next reading |
| Sensor.LastReadNeverGoesBack | pi-server/main.py:1026-1194 | within one process the time of the last reading never decreases, whatever the database accepts |
| Sensor.LastReadSurvivesRestarts | pi-server/main.py:723-761 | through restarts too it never decreases, as long as the database accepts every live reading |
| Sensor.RestartKeepsReadingExactly | pi-server/main.py:723-761 | a restart shows the reading from before exactly when it had been stored or there was none |
| Sensor.TextReadingsAreSound | pi-server/main.py:807-891 | in any run a live text reading shows for each section the weight it last reported since the frame was reset |
| SensorManager.Esp32SensorSerialManager.SnapshotFromWeights | pi-server/main.py:1026-1073 | the section loop computes the reading of the specification, with each section's weight and points and the sum of the points, and stores it when the database accepts it |
| SensorManager.Esp32SensorSerialManager.MarkStaleIfNeeded | pi-server/main.py:1120-1150 | turns stale exactly when the reference time is set and the timeout has passed |
| SensorManager.Esp32SensorSerialManager.IngestSerialLine | pi-server/main.py:933-964 | status, text and payload lines in that order, as in the specification |
| SensorManager.Esp32SensorSerialManager.Reboot | pi-server/main.py:642-667 | a new process starts from the stored reading and an empty frame |
| Camera.ShownBelongsToItsSession | pi-server/main.py:1360-1546 | in every interleaving the image, text and error shown were made by the worker of the session shown, the text off the image still shown; a running session's worker is alive and not told to stop |
| Camera.EveryRunStaysSound | pi-server/main.py:1480-1546 | the invariant behind it, over every run |
| Camera.SupersededWorkerIsInvisible | pi-server/main.py:1490-1541 | once superseded, a worker changes nothing: dropping all its later steps leaves what is shown the same, and its session is never shown again |
| Camera.DecodedSessionIsFrozen | pi-server/main.py:1515-1525 | after a successful decode frame count, image, text and error stay while that session is shown |
| Camera.AtMostOneFrameAfterStop | pi-server/main.py:1393-1409 | a session stopped without clearing shows at most one more frame, and only if its worker was past the fence |
| Camera.OneFrameAfterStopHappens | pi-server/main.py:1492-1501 | in every such state the one more frame can be shown |
| Camera.StoppedLateHappens | pi-server/main.py:1393-1409 | a concrete run to such a state |
| CameraManager.UsbCameraSessionManager.Stop | pi-server/main.py:1393-1409 | stop in its two steps is a run of the step relation, takes the clearing asked for, and leaves the old worker told to stop |
| CameraManager.UsbCameraSessionManager.Start | pi-server/main.py:1360-1391 | start is a run of the step relation and ends with its own session shown |
| CameraManager.UsbCameraSessionManager.Pass | pi-server/main.py:1482-1540 | one pass of the loop: an image captured is the one written, what the decoder or camera came back with is put down and, while the session is shown, shown |
| CameraManager.UsbCameraSessionManager.CaptureLoop | pi-server/main.py:1480-1546 | so is the whole loop |
| CameraManager.UsbCameraSessionManager.FrameResponse | pi-server/main.py:1467-1478 | an image is served exactly when there is one, and it was captured by the worker of the session shown |
| NmcliFields.SplitNmcliTerseFields | pi-server/main.py:2989-3009 | the loop computes the recursive reading of the line |
| NmcliFields.SplitInvertsJoin | pi-server/main.py:2989-3009 | escaping, joining with colons and splitting gives back any non-empty list of fields |
| NmcliFields.FieldCount | pi-server/main.py:2989-3009 | on any line there is one field more than there are colons not behind an odd run of backslashes |

## Left out

- Web pages, the dashboard, redirects, form reading, HTTP status mapping, request validation, JSON and SQL text.
- Camera capture, QR decoding, Wi-Fi, Tailscale and power commands, and opening serial ports: their results are inputs here.
- Hashing, tokens, pair codes and id generation: hashes are compared, ids are fresh.
- Calendar conversion: an expiry is an optional number of milliseconds, already parsed.
- Regular expressions on serial lines and the JSON key aliases of sensor payloads: a line arrives classified.
- Several phones: a row keeps its phone's stamp, so a second phone with a later sync time may not be sent it.
- Which side's bag name and size win: the collapse applies the phone's wish before stamps are compared, and an unsupported size sent by a phone can be stored.
- Agreement of the category id column after a sync: it is only filled when it is missing.
- What the phone does after a relayed sync timed out, pending rows of crashed waiters, and first-in first-out by true arrival: the stamp is taken before the lock.
- Phone edits made while a sync is on its way, and the phone's own payload check before sending.
- Floating-point rounding of weights and quantities.
- White space other than blank, tab, newline and carriage return, and letter case beyond A to Z.
- Listing endpoints that only read, creating or deleting a bag over HTTP (both act on the one bag), preferences, alerts, URL helpers and sensor start-up with the serial port disabled.
- The texts, raw payload and port name in a sensor snapshot, and the device, size, times and log text in a camera session.
- PiDatabase.Database.UpdateBagReadiness: says only that every bag gets one of the three readiness labels and a check time; which label the checklist earns is not modelled.
- Groups.BuildInventoryGroups: does not model the expiry labels, which depend on the day of display.
- PiDatabase.Database.InitDb: does not model the tables other than bags and items, nor the filling of missing item columns.
- RelayServer.Relay.AuthenticatePi: does not model the two base URLs stored with a device.
- PhoneStore.PhoneTable.RunSyncNow: does not model a phone paired with several bags, which also takes rows of the others.
- CameraManager.UsbCameraSessionManager.Stop: does not model the two-second wait for the old worker to end, which changes no state.
