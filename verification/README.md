# sciop, modelled and proved

sciop catalogues datasets, the torrents that copy them, and the people who scrape, upload and
moderate them. This project models the parts of it whose correctness is not visible in any one
function, and proves what they promise over every input or every run:

- **Magnet links** (`Text`, `Quoting`, `Magnet`, `MagnetProofs`, `MagnetParsing`). Rendering and
  parsing: percent-quoting, sorted lists, the key that two infohash kinds share, the whole-string pattern,
  the round trip, and what parsing makes of any text.
- **Nested dictionaries** (`NestedDicts`, `NestedDictsProofs`, `NestedDictsLoss`). Flattening to
  dotted keys, rebuilding, merging; the round trip is characterised exactly.
- **The read/write lock** (`ReadWriteLock`). Cooperative tasks over an inner lock and a counting queue.
- **Edit history** (`EditHistory`, `EditHistoryProofs`, `EditHistoryRows`, `EditSessions`,
  `LinkHistory`). What every flush writes, and that the history alone tells the table, and the
  links, at every flush.
- **Webseeds and the torrent file** (`WebseedView`). A url list maintained by listeners that run
  before the attribute they listen to has changed.
- **Moderation** (`Moderation`, `ModerationEffects`, `ModerationRuns`, `ModerationService`, `Reading`,
  `Slugs`). Scopes, suspension, reports, removal, what each request needs and changes, who can read
  what afterwards, and the prefix on removed slugs.
- **Claims** (`Claims`, `ClaimsAllocator`, `ClaimsEffects`, `ClaimsService`). Claims on dataset
  parts, and `next`.
- **Tracker scraping** (`ScrapeResults`, `UdpScrape`, `UdpScrapeProofs`, `HttpScrape`, `TrackerBackoff`,
  `TrackerRuns`, `Counter`). Pages, the binary format of BEP 15, the fallbacks over HTTP, what is due,
  backoff over many jobs, transaction ids.
- **Smaller ones** (`RangeRequest`, `FeedCache`, `Pagination`). Retries and byte budget of webseed
  validation, the feed cache against one that never purges, ragged pages.

Where the code loops or updates fields, the model is a method or a class that does the same, tied by
its `ensures` to a function on values; the lemmas are about these functions. `Wrappers`, `Sequences`
and `Numbers` are helpers.

Some promises hold only under a condition. In each such case the condition is stated on the call, a
lemma shows that the promise holds if and only if it is met, and a lemma has an input on which it fails:

| promise | fails exactly when | lemma | an input |
|---|---|---|---|
| flattening can be undone | some nested dictionary is empty, or a key that holds a dictionary ends in a backslash, or is empty at the top level | `NestedDictsLoss.RoundTripExactly` | `NestedDictsLoss.BackslashLost` |
| a rendered link parses back | something present is empty, or a url is changed by validation or too long | `MagnetProofs.RoundTripExactly` | `MagnetProofs.EmptyNameLost` |
| a flush writes its history rows | an object is both versioned itself and a staying member of a changed collection, or is the latter twice | `EditHistoryRows.FlushExactly` | `EditHistoryRows.ClashExample` |
| link history tells the links | some flush finds a collection emptied that held links | `LinkHistory.ToldExactly` | `LinkHistory.LastLinkLost` |
| the file lists what the query finds | the row of a listed webseed is deleted | `WebseedView.CoherentExactly` | `WebseedView.DeletedListed` |
| a removed dataset's slug is marked | one patch removes and renames it, or it is created as removed and the slug assigned after the flag | `Slugs.MarkedExactly` | `Slugs.RenamedRemoval` |
| a refused resolution is a moderation error | an admin asks for a suspension over an item nobody owns | `ModerationRuns.CrashesExactly` | `ModerationRuns.CrashReached` |
| a hidden item stays invisible, to those it is hidden from, unless a reviewer approves it | its owner has patched its approval, nothing since took that back, and it is not removed | `ModerationRuns.HidingHoldsExactly` | `ModerationRuns.UnhidingReached` |
| a hidden item is read only by its creator and by moderators, unless a reviewer approves it | it is a dataset or an upload, or a part with an owner that some active account which is neither has reported | `Reading.HidingKeptExactly` | `Reading.HiddenRead` |
| a removed item is read by nobody | it is a dataset or an upload, or a part with an owner that was reported before, by a still active account or with an active reviewer around | `Reading.RemovedReadExactly` | `Reading.RemovedRead` |
| being refused for too many requests does not delay the next scrape | what every page comes to, after its fallbacks, is such refusals or answers with nothing to report | `HttpScrape.NoResponseExactly` | `HttpScrape.RefusedDelayed` |
| backoff never gets shorter with more errors | the interval and the multiplier have opposite signs | `TrackerBackoff.BackoffExactly` | `TrackerBackoff.WaitShortened` |
| a tracker that failed is left alone for its backoff | no tracker at all responded to the job that found it failing | `TrackerRuns.DueAgainExactly` | `TrackerRuns.AskedAgain` |
| the responses to a range, each within a limit, stay within a budget | the budget has no room for the limit once more than there are retries | `RangeRequest.TrafficExactly` | `RangeRequest.BudgetExceeded` |
| a transaction id fits 32 bits | it is the last of its period of 2^32 + 1 calls | `Counter.FitsExactly` | `Counter.FitsExactly` |

Where the code and its own words differ, the model follows the code: `claim=false` on `next` still
makes a claim; the transaction counter reaches 2^32; a whole page that cannot be unpacked is an error
of the kind `default`, since composing the message of the `unpack` error fails; the error for
suspending over an ownerless item is made and not raised; reading back a claim on a whole dataset
fails, as it has no part to name, so that request answers with an error after its claim is stored; an
owner can approve what moderators have hidden; deleting a webseed leaves it in the torrent file. Hidden
and removed items are read by more people than `visible_to` says: the dataset answer of the API, the
upload partial of the frontend and the answer to a report do not consult it, and every dataset is
answered with all of its uploads. A report of a part without an owner is stored and then
answered with an error. A job that finds no tracker responding fails before it records any failure, as
the database library refuses an update with parameters and no rows; and retried responses are
downloaded beyond the budget for a validation.

## Model

| member | source | states |
|---|---|---|
| `Quoting.UnquoteQuote` | src/sciop/models/magnet.py:131-133 | unquoting gives back every byte string that was quoted |
| `Quoting.QuoteChars` | src/sciop/models/magnet.py:58-58 | a quoted value holds none of the characters that separate keys and values |
| `Quoting.QuoteExactly` | src/sciop/models/magnet.py:131-133 | which characters stay, and how every other one is spelled |
| `Quoting.HexExactly` | src/sciop/models/magnet.py:147-147 | hex digits are read in capitals and small letters |
| `Text.IntTextExactly` | src/sciop/models/magnet.py:133-133 | integers are written without leading zeros, with a minus sign only when negative |
| `Text.ParseIntExactly` | src/sciop/models/magnet.py:72-82 | what is read as an integer, and as which |
| `Magnet.Render` | src/sciop/models/magnet.py:110-140 | the loop over the sorted keys writes exactly `Rendered`, whose properties follow |
| `Magnet.Parse` | src/sciop/models/magnet.py:142-163 | the three refusals and the unlisting of singletons, as `Parsed` |
| `MagnetProofs.SortSorted` | src/sciop/models/magnet.py:130-131 | list fields are written in the order of their quoted items |
| `MagnetProofs.RenderCanonical` | src/sciop/models/magnet.py:125-133 | a link and its copy with lists in written order render alike |
| `MagnetProofs.MatchJoined` | src/sciop/models/magnet.py:145-145 | the pattern matches a run of fragments exactly when none of the values is empty |
| `MagnetProofs.QueryReadsBack` | src/sciop/models/magnet.py:146-148 | splitting and unquoting the written query gives back every key and value, in order |
| `MagnetProofs.LinkFromPairs` | src/sciop/models/magnet.py:150-163 | the shared `xt` key and every other field are read back into the field they came from |
| `MagnetProofs.RoundTripExactly` | src/sciop/models/magnet.py:110-163 | parsing a rendered link gives the link with sorted lists, if and only if nothing present is empty and the urls are stable under validation |
| `MagnetProofs.EmptyNameLost` | src/sciop/models/magnet.py:145-148 | a link that does not come back: its file name is empty |
| `MagnetProofs.RenderedAgain` | src/sciop/models/magnet.py:110-163 | rendering the parsed link gives the same string |
| `MagnetParsing.WrittenInOrder` | src/sciop/models/magnet.py:118-126 | a link is written with its version 1 hash first, its version 2 hash next, then trackers, then the other keys in alphabetical order |
| `MagnetParsing.MatchExactly` | src/sciop/models/magnet.py:58-76 | the pattern matches exactly the texts that are `magnet:` and then one or more fragments |
| `MagnetParsing.ParsedExactly` | src/sciop/models/magnet.py:142-163 | any other text is refused as no link, and a link is what its query gives |
| `MagnetParsing.QueryExactly` | src/sciop/models/magnet.py:146-147 | what of a text is its query |
| `MagnetParsing.StripAppend` | src/sciop/models/magnet.py:146-146 | tabs and line breaks are dropped character by character |
| `MagnetParsing.StripOne` | src/sciop/models/magnet.py:146-146 | these three characters are dropped, and no other |
| `MagnetParsing.PieceExactly` | src/sciop/models/magnet.py:147-147 | how a piece of the query is cut into key and value, and when it is dropped |
| `MagnetParsing.PiecesExactly` | src/sciop/models/magnet.py:147-147 | the query is the pairs of its pieces, in order |
| `MagnetParsing.ValuesExactly` | src/sciop/models/magnet.py:147-148 | the values of a key are those of its pairs, in order |
| `MagnetParsing.FromPairsExactly` | src/sciop/models/magnet.py:148-163 | which link comes of any pairs, field by field, and exactly when and how they are refused |
| `MagnetParsing.ContainsExactly` | src/sciop/models/magnet.py:151-156 | what it is for an `xt` to have a word in it |
| `NestedDicts.FlattenDict` | src/sciop/helpers/collections.py:8-41 | the recursive loop computes `Flatten` |
| `NestedDicts.UnflattenDict` | src/sciop/helpers/collections.py:44-58 | the rebuilding loop computes `Unflatten`, with a TypeError when it would descend into a leaf |
| `NestedDictsProofs.SplitJoined` | src/sciop/helpers/collections.py:50-50 | the look-behind split cuts a joined key exactly at the joints |
| `NestedDictsProofs.UnescapePlain` | src/sciop/helpers/collections.py:51-52 | unescaping takes away only backslashes before dots |
| `NestedDictsProofs.PrefixFree` | src/sciop/helpers/collections.py:49-57 | no leaf's path is the beginning of another leaf's path, so rebuilding never conflicts |
| `NestedDictsProofs.FlattenDecode` | src/sciop/helpers/collections.py:32-41 | flat keys are pairwise distinct and decode to the paths of the leaves, in order |
| `NestedDictsProofs.FromItemsExactly` | src/sciop/helpers/collections.py:41-41 | a flat dictionary has every key once, with the last value found for it |
| `NestedDictsProofs.Rebuild` | src/sciop/helpers/collections.py:48-58 | inserting the leaves of a dictionary one by one builds that dictionary, order included |
| `NestedDictsProofs.SafeRoundTrip` | src/sciop/helpers/collections.py:8-58 | a safe dictionary comes back identical, item order included |
| `NestedDictsLoss.RoundTripExactly` | src/sciop/helpers/collections.py:8-58 | a dictionary comes back equal if and only if it is safe |
| `NestedDictsLoss.BackslashLost` | src/sciop/helpers/collections.py:35-36 | one that does not: two levels under a key ending in a backslash come back as one |
| `NestedDictsLoss.MergeDicts` | src/sciop/helpers/collections.py:61-73 | the recursive loop computes `Merge` |
| `NestedDictsLoss.MergeGet` | src/sciop/helpers/collections.py:68-73 | what a merged dictionary holds at a key, in each of the cases |
| `NestedDictsLoss.MergeLeaf` | src/sciop/helpers/collections.py:61-73 | at every path the second dictionary wins where it speaks and the first stays where it is silent |
| `ReadWriteLock.StepInv` | src/sciop/services/tracker_scrape.py:109-150 | every step keeps: the count is the number of readers, one holder at most, the first waiter awake exactly when the lock is free |
| `ReadWriteLock.MutualExclusion` | src/sciop/services/tracker_scrape.py:125-150 | however tasks are scheduled, a writer at work is alone |
| `ReadWriteLock.ReadersDrain` | src/sciop/services/tracker_scrape.py:139-142 | once a writer has the inner lock readers only leave, and it can enter after exactly as many exits as there were readers |
| `ReadWriteLock.SomeoneMoves` | src/sciop/services/tracker_scrape.py:109-150 | no deadlock: while any task is busy, some busy task can move |
| `ReadWriteLock.NoOvertaking` | src/sciop/services/tracker_scrape.py:131-142 | over any run: as long as a task waits, every task that was behind it in the queue still waits behind it |
| `ReadWriteLock.Lock.RequestRead` | src/sciop/services/tracker_scrape.py:109-137 | a reader passes through the inner lock and is counted, or waits |
| `ReadWriteLock.Lock.ExitRead` | src/sciop/services/tracker_scrape.py:114-122 | a reader leaves; the last one lets the waiting writer go on |
| `ReadWriteLock.Lock.RequestWrite` | src/sciop/services/tracker_scrape.py:139-142 | a writer takes the lock and waits for the readers, or waits for the lock |
| `ReadWriteLock.Lock.ExitWrite` | src/sciop/services/tracker_scrape.py:144-150 | a writer gives the lock back and wakes the first waiter |
| `EditHistory.CreateVersion` | src/sciop/models/mixins/edit.py:213-245 | the object's own row, then one for each unchanged member of a changed collection, as `RowsFor` |
| `EditHistory.PulledIn` | src/sciop/models/mixins/edit.py:622-662 | which members get a row because of a collection: those staying in one that changed |
| `EditHistoryProofs.TellsOne` | src/sciop/models/mixins/edit.py:226-237 | a history tells at most one table for a given time |
| `EditHistoryRows.RowsExactly` | src/sciop/models/mixins/edit.py:213-245 | a flush adds rows for exactly the objects that are created, deleted, or dirty with changed columns, a changed collection or a change in another relation, and for those staying in a changed collection of such an object; with their present columns, and as deletions for what is deleted |
| `EditHistoryRows.FlushExactly` | src/sciop/models/mixins/edit.py:158-172 | the rows of a flush have distinct keys if and only if no object has two reasons for a row |
| `EditHistoryRows.ClashExample` | src/sciop/models/mixins/edit.py:654-662 | a flush that clashes, in a session that can occur: a changed child that stays in a changed collection |
| `EditHistoryProofs.FlushTells` | src/sciop/models/mixins/edit.py:158-172 | after a flush the newest rows tell exactly the new table: live rows with the current columns, deletions for what is gone |
| `EditHistoryProofs.PastKept` | src/sciop/models/mixins/edit.py:158-172 | later flushes change nothing that is told of earlier times |
| `EditSessions.EditSession.Assign` | src/sciop/models/mixins/edit.py:503-524 | assigning columns makes the object due for a row of its own if they differ |
| `EditSessions.EditSession.SetMembers` | src/sciop/models/mixins/edit.py:503-514 | changing a collection lists its owner for versioning, with a row to come if something joins or leaves |
| `EditSessions.EditSession.Touch` | src/sciop/models/mixins/edit.py:527-537 | a change of any other relation makes its object due for a row at the next flush |
| `EditSessions.EditSession.Delete` | src/sciop/models/mixins/edit.py:169-170 | a deleted object is versioned as deleted and no longer as dirty |
| `EditSessions.EditSession.Flush` | src/sciop/models/mixins/edit.py:158-172 | in any run of edits and flushes the history tells the table at every flush so far; a flush adds exactly the rows of `RowsExactly` and leaves nothing pending; a clash rolls back and leaves history and table as they were |
| `LinkHistory.UpdateManyToMany` | src/sciop/models/mixins/edit.py:541-619 | the two loops write `LinkRows`; an emptied or unchanged collection writes nothing |
| `LinkHistory.RowsExactly` | src/sciop/models/mixins/edit.py:577-619 | every present link is written as live if the object is new or its collection has changed, every removed one as deleted unless none is left; each once, none as both |
| `LinkHistory.RecordTells` | src/sciop/models/mixins/edit.py:577-619 | what each link is told to be after a flush, whatever the history held before |
| `LinkHistory.ToldExactly` | src/sciop/models/mixins/edit.py:541-619 | every flush of a run is told rightly if and only if no flush finds a collection emptied that held links |
| `LinkHistory.LostLink` | src/sciop/models/mixins/edit.py:561-562 | links of an emptied collection go on being told as live |
| `LinkHistory.LastLinkLost` | src/sciop/models/mixins/edit.py:561-562 | the shortest run that loses one |
| `WebseedView.TorrentFile.SyncWebseeds` | src/sciop/models/torrent.py:289-311 | the loop, the added and dropped urls, the removal of repeats, absent when empty, nothing when there is no file |
| `WebseedView.TorrentFile.AppendWebseed` | src/sciop/models/torrent.py:268-278 | append, with the file written before the webseed is in the list |
| `WebseedView.TorrentFile.RemoveWebseed` | src/sciop/models/torrent.py:281-286 | removal by identity |
| `WebseedView.TorrentFile.ReplaceWebseeds` | src/sciop/models/torrent.py:259-265 | replacing the whole collection |
| `WebseedView.TorrentFile.SetWebseedStatus` | src/sciop/models/webseed.py:140-152 | the status listener, run on the old status |
| `WebseedView.TorrentFile.SetWebseedApproved` | src/sciop/models/webseed.py:125-137 | the approval listener, run on the old approval |
| `WebseedView.TorrentFile.DeleteWebseedRow` | src/sciop/api/routes/uploads.py:200-229 | deleting the row has no listener: the webseed is gone and the file stays as it was |
| `WebseedView.FileWritten` | src/sciop/models/torrent.py:296-311 | a change of the collection writes the urls in the order of the webseeds; a file that is not there is never written |
| `WebseedView.StepExactly` | src/sciop/models/torrent.py:259-311 | one event keeps the file equal, as a set and without repeats, to the query, if and only if it is not the deletion of a listed webseed's row |
| `WebseedView.CoherentExactly` | src/sciop/models/webseed.py:125-152 | over any run of events the file is right at every moment if and only if no event of the run breaks it |
| `WebseedView.Restored` | src/sciop/models/torrent.py:259-286 | any event that has a listener puts even a wrong file right |
| `WebseedView.DeletedExactly` | src/sciop/api/routes/uploads.py:226-227 | deleting a webseed leaves a right file right if and only if the webseed was not listed |
| `WebseedView.DeletedListed` | src/sciop/api/routes/uploads.py:226-227 | a deletion that breaks it: the only webseed, validated and approved |
| `ModerationRuns.RunWellFormed` | src/sciop/models/report.py:118-137 | over every run, owners and targets go on existing |
| `ModerationRuns.RootRemains` | src/sciop/api/routes/review.py:243-342 | at every moment of every run of requests there is an unsuspended root if and only if there was one at first |
| `ModerationRuns.AuthorityKept` | src/sciop/api/routes/review.py:243-342 | in a run in which no root acts, the same accounts hold admin and root and their suspension is as it was |
| `ModerationEffects.AcceptedExactly` | src/sciop/api/routes/review.py:26-342 | every request is accepted if and only if a table of permissions allows it: who is active, which scopes, whose item, in which state |
| `ModerationEffects.StatusExactly` | src/sciop/api/deps.py:66-90 | how an unknown account is answered, a suspended one, one without the scope, and one that names what is not there |
| `ModerationEffects.OtherRefusals` | src/sciop/api/deps.py:186-231 | how every other refusal is answered |
| `ModerationEffects.RefusalsExactly` | src/sciop/models/report.py:304-358 | why a reviewer's resolution is refused: 403, 400 or 422, each in exactly its case |
| `ModerationEffects.CanSuspendExactly` | src/sciop/models/account.py:184-206 | whom one can suspend: not oneself, no root, and an admin only as a root |
| `ModerationEffects.ReportedExactly` | src/sciop/models/report.py:243-252 | which account a report is about |
| `ModerationEffects.ItemExactly` | src/sciop/models/report.py:277-293 | of an item, every request changes the approval it asks for and the removal if it is one that removes it, and nothing else; a refused one nothing; only creation makes items |
| `ModerationEffects.AccountExactly` | src/sciop/models/account.py:184-218 | of an account, every request changes the scope it grants or revokes and the suspension it sets or lifts, and nothing else; only registration makes accounts |
| `ModerationEffects.ReportExactly` | src/sciop/models/report.py:263-301 | of a report, a resolution sets the outcome, and nothing else changes it; only opening makes reports |
| `ModerationEffects.DismissChangesNothing` | src/sciop/models/report.py:280-282 | dismissing changes no account and no item |
| `ModerationEffects.TakesEffect` | src/sciop/api/routes/review.py:243-342 | what was granted is held, what was revoked is not except through a higher scope, and accounts are suspended or active as asked |
| `ModerationEffects.RemovedExactly` | src/sciop/models/mixins/moderation.py:124-146 | over every run, an item is found removed if and only if some accepted request removed it or made it so |
| `ModerationEffects.Untouched` | src/sciop/models/report.py:277-293 | over every run, an item that no accepted request names or removes through its owner stays as it was |
| `ModerationRuns.StruckOut` | src/sciop/api/deps.py:66-90 | the requests of a suspended account could be struck out of any run, up to its restoration |
| `ModerationRuns.SuspensionTraced` | src/sciop/api/routes/review.py:243-275 | an account found suspended was suspended in the run by an active admin other than itself, by a root if it holds admin, and by route if it is a root |
| `ModerationRuns.RemovalLasts` | src/sciop/models/mixins/moderation.py:58-70 | over every run, a removed item never becomes visible to anybody again, as `visible_to` has it |
| `ModerationRuns.RequestedRemovalLasts` | src/sciop/models/mixins/moderation.py:124-146 | whichever way it is removed, by denial, deletion, patch or report, the item is visible to nobody at any later time |
| `ModerationRuns.ResolvedAtMostOnce` | src/sciop/models/report.py:345-349 | over every run a report is resolved at most once, and its first outcome is there for good |
| `ModerationRuns.CrashesExactly` | src/sciop/models/report.py:322-336 | resolution ends in an unhandled exception if and only if an admin asks for a suspension over an ownerless item |
| `ModerationRuns.CrashReached` | src/sciop/models/upload.py:308-327 | a run from a fresh instance that ends there: a part made by editing an upload has no owner |
| `ModerationRuns.SuspendRemoveLasts` | src/sciop/models/report.py:287-289 | after `suspend_remove`, until someone restores the account, it stays suspended with nothing visible; what it had at the time is never visible again |
| `ModerationRuns.ApprovedExactly` | src/sciop/models/mixins/moderation.py:106-122 | after any run a hidden item is approved if and only if some accepted request approved it and none after it took that back |
| `ModerationRuns.HiddenExactly` | src/sciop/models/mixins/moderation.py:58-70 | to whom a hidden item is visible after any run: to its owner and reviewers, and to everybody if and only if it is approved by then; to nobody once removed |
| `ModerationRuns.HidingHoldsExactly` | src/sciop/api/routes/datasets.py:118-132 | without a reviewer's approval a hidden item is visible to everybody again if and only if a patch of its owner's stands |
| `ModerationRuns.UnhidingReached` | src/sciop/api/routes/datasets.py:118-132 | a run from a fresh instance: root hides a dataset and its owner, who holds no scope, makes it visible again |
| `ModerationRuns.PairStruckOut` | src/sciop/api/routes/review.py:243-342 | a grant of a scope that was not held and its revocation, or a suspension and its restoration, by one account in a row: the second is accepted, and the pair can be struck out of any run |
| `Reading.ReadableExactly` | src/sciop/api/routes/datasets.py:113-115 | over all the reading routes: datasets and uploads can be read by everybody, a part by those it is visible to and those who are shown a report of it |
| `Reading.CheckedExactly` | src/sciop/api/deps.py:227-231 | the routes that ask for visibility answer only to those the item is visible to, and the lists list exactly what is visible |
| `Reading.DatasetRoutes` | src/sciop/api/routes/datasets.py:45-52 | what comes with the answers about datasets: every one with all of its uploads |
| `Reading.PartRoutes` | src/sciop/api/routes/datasets.py:186-190 | what comes with the answers about parts, and that one visible part without an owner fails the list |
| `Reading.UploadRoutes` | src/sciop/frontend/uploads.py:54-95 | what comes with the answers about uploads and reports |
| `Reading.ReadForGood` | src/sciop/frontend/uploads.py:89-95 | hidden or removed, a dataset or an upload can be read by everybody at every later moment of a run |
| `Reading.RemovedReadExactly` | src/sciop/api/routes/report.py:61-68 | who can read a removed item at any later time: everybody if not a part; a part with an owner only active accounts that had reported it, and reviewers if anybody had |
| `Reading.PrivateExactly` | src/sciop/types.py:420-427 | an item that is not approved is read only by its owner and reviewers if and only if it is a part that nobody else has reported |
| `Reading.HidingKeptExactly` | src/sciop/types.py:420-427 | the same at the end of any run without a reviewer's approval since the hiding |
| `Reading.HiddenRead` | src/sciop/api/routes/datasets.py:113-115 | a run from a fresh instance: a dataset is hidden, and answered to an anonymous request |
| `Reading.RemovedRead` | src/sciop/api/routes/report.py:61-68 | a run from a fresh instance: a removed part, visible to nobody, is shown to the account that reported it |
| `ModerationService.Instance.GrantTo` | src/sciop/api/routes/review.py:279-308 | granting, with its guards in order |
| `ModerationService.Instance.RevokeFrom` | src/sciop/api/routes/review.py:313-342 | revoking, with its guards in order |
| `ModerationService.Instance.SetStanding` | src/sciop/api/routes/review.py:243-275 | suspending and restoring by route |
| `ModerationService.Instance.ApproveItem` | src/sciop/api/routes/review.py:26-67 | approving and unapproving, by reviewers only |
| `ModerationService.Instance.DenyAs` | src/sciop/api/routes/review.py:72-83 | denying, by reviewers only |
| `ModerationService.Instance.HideItem` | src/sciop/models/mixins/moderation.py:106-122 | hides if and only if the actor may remove the item |
| `ModerationService.Instance.RemoveItem` | src/sciop/models/mixins/moderation.py:124-146 | removes if and only if the actor may |
| `ModerationService.Instance.Suspend` | src/sciop/models/account.py:184-218 | suspends if and only if the actor can suspend the account |
| `ModerationService.Instance.EditAs` | src/sciop/api/routes/datasets.py:118-132 | editing, for those to whom the item is visible |
| `ModerationService.Instance.EditWithPartAs` | src/sciop/models/upload.py:299-332 | editing an upload with a part slug, which makes a part without an owner if it is new |
| `ModerationService.Instance.RemoveAllItems` | src/sciop/models/account.py:249-266 | uploads, parts, datasets, one at a time with a check at each: an admin is never stopped half-way, and all the account's items are removed |
| `ModerationService.Instance.CheckAction` | src/sciop/models/report.py:304-358 | the checks on an action, in their order |
| `ModerationService.Instance.TakeAction` | src/sciop/models/report.py:277-293 | an allowed action is carried out to the end: no inner permission check fails, and its effect is the one it is for |
| `ModerationService.Instance.ResolveAs` | src/sciop/models/report.py:263-301 | a resolution is refused with nothing changed, or complete |
| `Slugs.StripExactly` | src/sciop/models/mixins/moderation.py:148-163 | stripping the prefix gives the original slug if and only if that had no double underscore |
| `Slugs.OnePrefix` | src/sciop/models/mixins/moderation.py:148-156 | however often it is added there is one prefix |
| `Slugs.PrefixInjective` | src/sciop/models/mixins/moderation.py:148-156 | a marked slug tells the slug and the creation time it comes from |
| `Slugs.StepExactly` | src/sciop/models/dataset.py:259-276 | one request keeps marks and flags together if and only if it is not a patch that removes and renames, or a creation as removed that assigns the slug last |
| `Slugs.EffectExactly` | src/sciop/models/dataset.py:259-276 | what each request makes of the item it names, unless another has the slug, and that it changes no other |
| `Slugs.MadeExactly` | src/sciop/crud.py:63-103 | what is created as removed is marked if and only if the flag is assigned after the slug |
| `Slugs.MarkedExactly` | src/sciop/models/dataset.py:288-297 | the same over whole runs, at every moment |
| `Slugs.RenamedRemoval` | src/sciop/models/dataset.py:259-276 | the patch that breaks it |
| `Slugs.RemovedForGood` | src/sciop/api/deps.py:227-231 | a removed item keeps flag and slug through every later request |
| `Slugs.NeverCollide` | src/sciop/models/mixins/moderation.py:150-152 | a removed item's slug is never one that a request body can give to an item |
| `Slugs.Dataset.SetRemoved` | src/sciop/models/dataset.py:288-297 | the listener, then the flag |
| `Slugs.Dataset.Update` | src/sciop/models/dataset.py:259-276 | the fields given, in the order of assignment |
| `Claims.StepInv` | src/sciop/api/routes/claims.py:87-203 | every request keeps at most one claim per account or none, dataset, and part or none |
| `Claims.RunInv` | src/sciop/models/claim.py:59-66 | the same over every run, including the case without a part that the table's constraint does not cover |
| `Claims.DropFirstClears` | src/sciop/crud.py:528-541 | clearing the first dataset claim found clears all of them |
| `Claims.UploadClears` | src/sciop/crud.py:321-357 | an upload clears all claims it settles and none of the others |
| `ClaimsEffects.PartClaimed` | src/sciop/api/routes/claims.py:114-143 | claiming a part leaves exactly one claim of the account on it, with the status given, and all others as they were; nobody is then handed the part |
| `ClaimsEffects.DatasetClaimed` | src/sciop/api/routes/claims.py:87-111 | claiming a dataset leaves exactly one claim of the account on it as a whole, and all others as they were |
| `ClaimsEffects.PartUnclaimed` | src/sciop/api/routes/claims.py:146-159 | giving up a claim removes exactly that one; without it the request is a 404 and changes nothing |
| `ClaimsEffects.NextClaimed` | src/sciop/api/routes/claims.py:162-203 | `next` adds exactly one claim, on the least free part; the four statuses and when each is given |
| `ClaimsEffects.PartsExactly` | src/sciop/crud.py:321-357 | which parts a request makes uploaded, and that it changes nothing else of any part |
| `ClaimsEffects.OthersExactly` | src/sciop/api/routes/datasets.py:193-238 | which requests leave the claims alone, and how they are answered |
| `ClaimsAllocator.BusyLasts` | src/sciop/api/routes/claims.py:163-203 | a part that is claimed or uploaded stays so, through the hand-over too, unless the only claimant gives it up |
| `ClaimsAllocator.NoPartTwice` | src/sciop/api/routes/claims.py:163-203 | as long as no claim is given up, no part is handed out twice, whoever asks |
| `ClaimsAllocator.DrainExactly` | src/sciop/api/routes/claims.py:175-187 | asking until nothing is left gives every eligible part once, in slug order |
| `ClaimsAllocator.NextTakes` | src/sciop/api/routes/claims.py:175-203 | `next` takes the least eligible part, and is a 404 exactly when there is none |
| `ClaimsService.ClaimTables.ClaimDatasetAs` | src/sciop/api/routes/claims.py:87-111 | claiming a dataset, or updating the claim there is |
| `ClaimsService.ClaimTables.ClaimPartAs` | src/sciop/api/routes/claims.py:114-143 | claiming a part, or updating the claim there is |
| `ClaimsService.ClaimTables.UnclaimAs` | src/sciop/api/routes/claims.py:146-159 | giving a claim up |
| `ClaimsService.ClaimTables.NextFor` | src/sciop/api/routes/claims.py:162-203 | the `next` request and its four outcomes |
| `ClaimsService.ClaimTables.ClearParts` | src/sciop/crud.py:567-587 | deleting the listed claims one by one leaves exactly the others, in order |
| `ClaimsService.ClaimTables.UploadAs` | src/sciop/crud.py:321-357 | uploading a dataset or some of its parts |
| `UdpScrape.StatsRoundTrip` | src/sciop/services/tracker_scrape.py:428-436 | decoding gives back every triple of 32-bit statistics, wherever it stands in the reply |
| `UdpScrape.StatsExactly` | src/sciop/services/tracker_scrape.py:428-436 | what is decoded are the big-endian words that stand there, as seeders, completed and leechers in this order |
| `UdpScrape.UnpackScrapeResult` | src/sciop/services/tracker_scrape.py:407-440 | the loop with its moving offset computes `Unpacked` |
| `UdpScrape.ScrapePage` | src/sciop/services/tracker_scrape.py:369-405 | the outcomes of one page, failures included |
| `UdpScrape.Scrape` | src/sciop/services/tracker_scrape.py:352-367 | the accumulating loop equals the sum over the pages |
| `ScrapeResults.PlusAssociative` | src/sciop/services/tracker_scrape.py:72-78 | adding results is associative, later pages winning |
| `UdpScrapeProofs.PagesPartition` | src/sciop/services/tracker_scrape.py:363-365 | the pages cut up the list: none empty, none too long, all but the last full |
| `UdpScrapeProofs.PageExactly` | src/sciop/services/tracker_scrape.py:407-440 | the first hashes the reply has room for get their statistics, each other one exactly one error |
| `UdpScrapeProofs.TruncatedReply` | src/sciop/testing/fixtures/tracker.py:85-118 | any part of a tracker's reply that includes the header gives each hash there is room for its own statistics |
| `UdpScrapeProofs.WholeReply` | src/sciop/testing/fixtures/tracker.py:85-118 | a whole reply gives all statistics and no error |
| `UdpScrapeProofs.ScrapeExactly` | src/sciop/services/tracker_scrape.py:352-440 | over all pages, each hash gets its own page's answer and no other: statistics, one error, or the failure of its page |
| `UdpScrapeProofs.PageFailure` | src/sciop/services/tracker_scrape.py:388-405 | a page whose reply does not begin with action 2 and the id of the request is one default error of the tracker; one without a reply is one error of its kind; an answered one has only errors of its own hashes |
| `UdpScrapeProofs.RefusalFails` | src/sciop/services/tracker_scrape.py:382-388 | an error reply of the tracker, of whatever length, is one error and no statistics |
| `UdpScrapeProofs.RoomExactly` | src/sciop/services/tracker_scrape.py:420-426 | how many hashes a reply has room for |
| `UdpScrapeProofs.WholeScrape` | src/sciop/services/tracker_scrape.py:352-440 | when every page is answered in full, the scrape is the statistics of every hash, and no error |
| `HttpScrape.ScrapePage` | src/sciop/services/tracker_scrape.py:504-576 | the outcomes of one page, with the fallbacks to single hashes or to one chosen hash |
| `HttpScrape.ScrapeSingle` | src/sciop/services/tracker_scrape.py:578-590 | asking hash by hash, added up |
| `HttpScrape.Scrape` | src/sciop/services/tracker_scrape.py:464-487 | the accumulating loop, and the error for a scrape that brought nothing |
| `HttpScrape.RequestsExactly` | src/sciop/services/tracker_scrape.py:504-590 | the recursion ends: one request, or two, or one more than there are hashes, the last only for trackers asked one by one |
| `HttpScrape.EverythingFiltered` | src/sciop/services/tracker_scrape.py:557-560 | a scrape of everything, fallbacks included, reports only hashes that were asked about, as long as the tracker answers single requests with the hash it was asked for |
| `HttpScrape.AnswerExactly` | src/sciop/services/tracker_scrape.py:504-576 | a page that is not asked for again: the statistics of each hash, and the kind of each failure |
| `HttpScrape.FallbackExactly` | src/sciop/services/tracker_scrape.py:516-551 | a page that is asked for again keeps nothing of the first answer |
| `HttpScrape.SinglesFaults` | src/sciop/services/tracker_scrape.py:578-590 | asked hash by hash, each hash at which the tracker fails adds one error |
| `HttpScrape.SinglesStats` | src/sciop/services/tracker_scrape.py:578-590 | of the hashes asked one by one, the last that is answered with statistics of a hash counts |
| `HttpScrape.PagesSplit` | src/sciop/services/tracker_scrape.py:464-487 | hashes are asked about in pages of the greatest size, one page after the other |
| `HttpScrape.FallbackAnswers` | src/sciop/services/tracker_scrape.py:516-551 | a tracker that refuses many hashes but answers for each still gives them all |
| `HttpScrape.PageQuietExactly` | src/sciop/services/tracker_scrape.py:504-576 | a page comes to nothing if and only if the tracker's answers to its request and its fallbacks are refusals for too many requests or hold nothing to report |
| `HttpScrape.NoResponseExactly` | src/sciop/services/tracker_scrape.py:464-487 | a scrape, of everything or of pages, ends in an error of the tracker for want of any result if and only if all its pages are quiet |
| `HttpScrape.RefusedDelayed` | src/sciop/services/tracker_scrape.py:526-530 | one that does: every request is refused for too many requests |
| `TrackerBackoff.TrackerTable.HandleTrackerError` | src/sciop/services/tracker_scrape.py:800-868 | grouping, error rows, working rows and the update leave every tracker as its own results say |
| `TrackerBackoff.TrackerTable.Record` | src/sciop/services/tracker_scrape.py:645-646 | the end of a job: the trackers are written unless there is no response to write before them |
| `TrackerBackoff.TrackerTable.GatherScrapable` | src/sciop/services/tracker_scrape.py:659-699 | the loop that groups what the query finds by tracker computes `Gathered` |
| `TrackerBackoff.GatheredExactly` | src/sciop/services/tracker_scrape.py:659-699 | a tracker is asked about exactly the v1 torrents whose uploads are not removed and that were not scraped there within the interval, and only if it is scraped at all and need not be waited for |
| `TrackerBackoff.GatheredInOrder` | src/sciop/services/tracker_scrape.py:688-699 | each tracker comes up once, with its torrents in the order in which they were found |
| `TrackerBackoff.BackoffExactly` | src/sciop/services/tracker_scrape.py:871-880 | backoff never exceeds the cap, and never shrinks with more errors if and only if interval and multiplier do not have opposite signs |
| `TrackerBackoff.WaitsExactly` | src/sciop/services/tracker_scrape.py:871-880 | which multiplier counts for which kind of error, and the wait that comes of it |
| `TrackerBackoff.WaitShortened` | src/sciop/services/tracker_scrape.py:871-880 | a negative multiplier, or a negative interval, makes the second wait shorter than the first |
| `TrackerRuns.ErrorsCounted` | src/sciop/services/tracker_scrape.py:800-868 | over any rounds, `n_errors` is the number of recorded failures after the last round in which the tracker worked |
| `TrackerRuns.LastWorkedFound` | src/sciop/services/tracker_scrape.py:843-859 | of any rounds there is a last one in which the tracker worked, unless it never did |
| `TrackerRuns.ScrapedDue` | src/sciop/services/tracker_scrape.py:659-699 | what a job gets is about trackers that were due when it ran |
| `TrackerRuns.DueAgainExactly` | src/sciop/services/tracker_scrape.py:764-797 | over any run of jobs that gather, scrape and record: when a tracker that failed is due again, which is after the backoff for its number of failures if and only if the job could record it |
| `TrackerRuns.WaitsLongEnough` | src/sciop/services/tracker_scrape.py:682-685 | after a recorded failure the next job that scrapes the tracker runs only when the backoff for its number of failures has passed |
| `TrackerRuns.NeverBackedOff` | src/sciop/services/tracker_scrape.py:764-797 | as long as no tracker responds, failures leave no trace, however many |
| `TrackerRuns.AskedAgain` | src/sciop/services/tracker_scrape.py:764-797 | two jobs a minute apart, both scraping a tracker that only times out |
| `Counter.ClosedForm` | src/sciop/services/tracker_scrape.py:164-173 | call number n returns the quotient and remainder of n by 2^32 + 1 |
| `Counter.Increasing` | src/sciop/services/tracker_scrape.py:153-173 | the pairs strictly increase |
| `Counter.FitsExactly` | src/sciop/services/tracker_scrape.py:166-170 | the id fits 32 bits if and only if the call is not the last of its period; that one gives 2^32 |
| `Counter.TransactionCounter.Next` | src/sciop/services/tracker_scrape.py:164-173 | one call |
| `RangeRequest.ReadBody` | src/sciop/services/webseeds.py:250-277 | the accumulating loop with its early stop, and the trimming |
| `RangeRequest.ReceivedExactly` | src/sciop/services/webseeds.py:255-261 | every chunk is read up to the first with which 1.1 times the length asked for has been downloaded |
| `RangeRequest.HeaderReads` | src/sciop/services/webseeds.py:238-246 | the end-inclusive header asks for exactly the bytes of the range |
| `RangeRequest.RequestRange` | src/sciop/services/webseeds.py:227-294 | the recursion over one shared retries object ends, and computes `Fetch` |
| `RangeRequest.RequestsBounded` | src/sciop/services/webseeds.py:279-286 | at most one request more than there are retries |
| `RangeRequest.GivenUpExactly` | src/sciop/services/webseeds.py:279-294 | a status is given up on exactly when it has come once more than its allowance |
| `RangeRequest.BodyExactly` | src/sciop/services/webseeds.py:274-294 | bytes come back if and only if the last response is a 206 (section 14.1.2 of RFC 9110), never more than the range asked for |
| `RangeRequest.BytesExactly` | src/sciop/services/webseeds.py:250-277 | the bytes a final 206 comes to: its chunks put together up to that one, cut at the length asked for |
| `RangeRequest.RangeReturned` | src/sciop/services/webseeds.py:250-277 | a final 206 that sends exactly the range returns exactly its bytes |
| `RangeRequest.MaxPiecesExactly` | src/sciop/config/services.py:177-184 | the number of pieces is the greatest within both limits |
| `RangeRequest.WithinBudget` | src/sciop/config/services.py:177-184 | whatever the servers answer, the bytes kept of all the ranges of the sampled pieces stay within the byte budget |
| `RangeRequest.Overshoot` | src/sciop/services/webseeds.py:250-261 | whatever a server sends, what is downloaded of one response is at most a tenth and a chunk more than was asked for |
| `RangeRequest.TrafficExactly` | src/sciop/services/webseeds.py:279-286 | the responses to a range, each within a limit, stay within a budget for all servers if and only if the limit times one more than all the retries does |
| `RangeRequest.DownloadBounded` | src/sciop/config/services.py:150-153 | what a whole validation downloads, of servers that send no more than asked, is at most the budget times one more than all the retries |
| `RangeRequest.BudgetExceeded` | src/sciop/config/services.py:150-153 | one that exceeds it: a piece as large as the budget, refused five times at full length |
| `FeedCache.PurgingUnseen` | src/sciop/models/rss.py:93-126 | with a clock that does not go back, purging changes no answer of any run |
| `FeedCache.SeenAfterSetBack` | src/sciop/models/rss.py:93-112 | with one that does, it can |
| `FeedCache.LookupLeaves` | src/sciop/models/rss.py:93-122 | what a lookup purges, and when |
| `FeedCache.TableBounded` | src/sciop/models/rss.py:93-122 | over any run, after a lookup the table holds nothing expired for longer than the time between purges |
| `FeedCache.RssFeedCache.CleanCache` | src/sciop/models/rss.py:93-106 | the purge |
| `FeedCache.RssFeedCache.GetValidCachedItem` | src/sciop/models/rss.py:114-122 | a lookup answers as a table that was never purged, and serves nothing of age delta or more |
| `FeedCache.RssFeedCache.AddToCache` | src/sciop/models/rss.py:124-126 | adding an entry |
| `Pagination.PagesJoin` | src/sciop/models/api.py:205-221 | pages put together are the list, as far as they reach |
| `Pagination.AllPages` | src/sciop/models/api.py:205-221 | enough pages are the whole list |
| `Pagination.OnePage` | src/sciop/models/api.py:205-221 | every index is on exactly one page |
| `Pagination.SizesExactly` | src/sciop/models/api.py:205-221 | the first page has the first size, every other the other size, as far as the list goes |

## Left out

- `NestedDicts.UnflattenDict`: the walk through nested dictionaries by a moving reference is a recursive function on values, so updates in place and sharing between dictionaries are not captured.
- `NestedDicts.FlattenDict`: keys are strings; other keys, which the code turns into strings, are left out.
- `NestedDictsLoss.MergeDicts`: returns the merged dictionary instead of changing its first argument in place; aliasing between the two arguments is not captured.
- `MagnetProofs.RoundTripExactly`: is stated for v1 hashes of letters and digits and v2 hashes of hex digits, the spellings that infohashes have; the code checks neither. Text is bytes, so invalid UTF-8 and keys outside ASCII are not captured; url normalisation is a parameter; lenient integer spellings are read as integers only in the form that rendering writes.
- `EditSessions.EditSession.Flush`: takes the times of successive flushes to increase, a flush to be a commit, and an object as one row of columns; inheritance between tables, cascades and deferred columns belong to SQLAlchemy and are not part of this model.
- `LinkHistory.ToldExactly`: leaves out deleted owners, whose links get no deletion rows.
- `WebseedView.StepExactly`: the removal flag of webseeds, which nothing in the code sets, never changes here.
- `ModerationService.Instance.ResolveAs`: the audit log, and the commits made half-way through some actions, are left out; only permission failures are shown not to interrupt.
- `ModerationService.Instance.SetStanding`: account lookup is by id; when several checks would refuse, the reported status follows the order of the checks in one route, which for other item kinds can differ.
- `ModerationRuns.HiddenExactly`: every upload is taken to have its torrent, without which it is not visible, and creating an upload does not ask for a visible dataset.
- `ModerationRuns.CrashesExactly`: is about resolving; how the answer to a resolution is rendered is left out.
- `Reading.ReadableExactly`: what a listing adds to items named in a request is left out where it only lists visible ones (feeds, graphs, tags, accounts), and so are audit log, edit and review pages, which ask for more; requests that write are not reads. Names of items shown beside others, the publishers that autocompletion offers, collisions of short hashes, and the torrent files in their directory are left out. Which dataset a part or an upload belongs to is a parameter.
- `Slugs.MarkedExactly`: assumes that slugs hold no underscore and that the digest is six hex digits; in which order a creation assigns slug and flag is a parameter, as it is decided by the validation library; the unique constraint on parts within a dataset is left out.
- `Claims.StepInv`: visibility of the dataset itself is taken as given; slugs are represented by their place in the sort order.
- `UdpScrape.ScrapePage`: the error messages are left out; connecting, DNS and sockets are an outcome per page.
- `TrackerBackoff.TrackerTable.HandleTrackerError`: one time per round instead of one per row; real arithmetic instead of floating point.
- `TrackerBackoff.TrackerTable.Record`: of the rows written to the links, only their number counts here.
- `TrackerRuns.WaitsLongEnough`: one time per job; what a tracker answers is a parameter, and of a response only which tracker sent it.
- `RangeRequest.ReadBody`: closing the response is taken to end the stream.
- `RangeRequest.DownloadBounded`: what came before a protocol error is not counted.
- `FeedCache.RssFeedCache.CleanCache`: one time per call.
- `HttpScrape.ScrapePage`: the random choice is a parameter, decoding is part of the reply, and the successful statuses other than 200 are left out.
- Choosing and validating pieces of a torrent: torrent parsing and hashing are library code.
- Job scheduling and remote calls between processes: behaviour of libraries.
- Concurrent database transactions and task cancellation: requests are sequential steps.
- Search, templates, feeds, RDF, statistics: easy members or wrappers around libraries.
