# torrsent orchestration core, modelled in Dafny

This project models the orchestration logic of `client.js` in torrsent, a
program that reads RSS feeds (and a scraped listing), queues the
announcements, admits a bounded number of them into a WebTorrent client, and
runs each torrent through a periodic policy. That policy retires a torrent
for one of five reasons:

- its info hash is already in the download history;
- its folder already exists on the Drive remote;
- it has no peers;
- its upload ratio is reached;
- its seeding time is over.

The model has seven modules, one file each:

- `wrappers.dfy` (`Wrappers`): `Option`, standing for `null` and `undefined`.
- `history.dfy` (`History`): the in-memory download history. It is a map from key to tag, with `contains` (truthiness of the tag) and `set`.
- `feed_items.dfy` (`FeedItems`): how a feed item from xml2js and a scraped item become a queue item. It covers the defaults for a missing size or link, the `pop()` of xml2js arrays, and the flattening of a feed's channels.
- `drive_listing.dfy` (`DriveListing`): the Drive presence probe `isFolderInDrive`. It models JavaScript `split`/`join` on strings, the folder-name extraction from `rclone lsd` lines as written, and the column-based extraction the probe uses in the model (see Findings).
- `admission.dfy` (`Admission`): the pure parts of `queueLoop`. These are the JavaScript `slice` split of the queue, the magnet-or-redirect resolution, and `torrentsInProgress`.
- `policy.dfy` (`Policy`): one `checkerLoop` tick as a pure function `Step`: `FirstChecks` (the first-tick history check, then the Drive probe) and, when neither retires, `Supervise` (stall, ratio, seeding time). The lemmas about `Step` state the fixed order of the checks and when each retirement fires.
- `client.dfy` (`Client`): the state that changes in place.
  - Class `Orchestrator` holds the module-level `downloadHistory` and `downloadQueue`. A ghost `log` records, in order, the calls made on the outside world: history writes, `torrentClient.add`, `clearInterval`, `destroy`, folder deletion and upload start.
  - Class `Session` holds the fields client.js adds to each torrent. These are `createdAt`, `uploadedToDrive`, `downloadFinishedAt` and `initialCheckDone`, plus whether its interval is still set.
  - The class methods do the ingestion cycle, the admission tick, one checker tick, and the `done` and upload-complete handlers.

`Orchestrator.Valid()` is the invariant kept by every method:

- every tag in the history is non-empty;
- the history's keys are exactly the keys recorded along `log`;
- every magnet handed to the engine was recorded in the history earlier in `log`.

Inputs from outside the program are parameters: the clock `now`, the `Location` header of a redirect, the lines printed by `rclone lsd`, and the engine's metrics. One checker tick, one admission tick and one ingestion cycle are each modelled as one method call; inside an admission tick the callbacks interleave as JavaScript runs them (`Client.AdmittedAsRun`).

Modelling choices:

- `progress` is the flag `complete`, meaning `progress === 1`.
- Times in the stall and seeding checks are compared in integer milliseconds (`now - createdAt > max * 1000`). Lemma `Policy.ElapsedExceedsMeansSeconds` proves this agrees with the source's division by 1000.
- `maxRatio` is a fraction `num/den`, and the ratio check cross-multiplies. A positive upload over zero download counts as exceeded (JavaScript `Infinity`); `0/0` never exceeds (`NaN`).

Three behaviours of the code that the model keeps as they are:

- The "no peers" rule (client.js:238) applies only while `progress !== 1`: a complete torrent with no download speed is never stalled.
- The upload callback (client.js:266-269) sets `uploadedToDrive = true` and logs 'Upload complete:' whatever exit code rclone returns.
- `maxItemsInQueueForFetching` (client.js:116-120) only decides whether a cycle fetches at all. A cycle that does fetch appends every batch, however long the queue then grows.

## Model

| member | source | states |
|---|---|---|
| `History.Contains` | client.js:19-21 | no ensures of its own: `contains(key)` is `Boolean(store[key])`, a present key with a non-empty tag; its meaning after writes is fixed by `History.SetThenContains` and `History.SetKeepsContents` |
| `History.Set` | client.js:22-24 | no ensures of its own: `set(key, tag)` overwrites the key; `History.SetThenContains`, `History.SetIdempotent`, `History.SetCommutes` and `History.SetPairTwice` state what it does |
| `History.SetThenContains` | client.js:17-25 | after `set(k, v)` with non-empty `v`, `contains(k)` holds and every other key's membership is unchanged |
| `History.SetIdempotent` | client.js:22-24 | repeating `set(k, v)` leaves the history as after the first call |
| `History.SetCommutes` | client.js:22-24 | writes to distinct keys commute |
| `History.SetKeepsContents` | client.js:17-25 | a `set` with a non-empty tag never makes a present key absent (append-only) |
| `History.SetPairTwice` | client.js:229-234 | recording the magnet/infoHash pair a second time (Drive hit after a first-tick miss) changes nothing |
| `FeedItems.PopOr` | client.js:139-142 | no ensures of its own: the last element of the field's array, or of the default array only when the field is absent; each case is stated for the item's fields by `FeedItems.NormaliseFeedItem` |
| `FeedItems.NormaliseFeedItem` | client.js:131-143 | each field is the last element of its xml2js array; a missing size becomes '-1', a missing link '' and a missing title or date undefined; a present but empty link array gives "undefined", a present but empty title array undefined; a present date array is parsed from its last element, an empty one like a missing one |
| `FeedItems.NormaliseChannel` | client.js:127-144 | an undefined `channel.item` contributes nothing; otherwise one normalised item per raw item, in order |
| `FeedItems.NormaliseChannels` | client.js:127-146 | the flattened feed has as many items as all channels hold together |
| `FeedItems.NormaliseChannelsAppend` | client.js:127-146 | flattening distributes over concatenation of the channel list, so channels keep their order |
| `FeedItems.NormaliseScraped` | client.js:150-158 | a scraped item keeps its title and link and gets size -1 and pubDate 1 |
| `FeedItems.NormaliseScrapedAll` | client.js:150-158 | the scraped batch maps item by item |
| `DriveListing.Split` | client.js:87 | `s.split(sep)` has at least one piece; `DriveListing.JoinSplit` and `DriveListing.SplitPartsFree` fix its meaning (the pieces between the occurrences) |
| `DriveListing.Join` | client.js:87 | no ensures of its own: `parts.join(sep)`; `DriveListing.JoinSplit` states it undoes `Split` |
| `DriveListing.FolderName` | client.js:87 | as written, no ensures of its own: `l.split('-1').slice(2).join('-1').slice(1)`; `DriveListing.FolderNameOfListingLine` states when it yields the name and `DriveListing.DatedLineMisread` when it does not |
| `DriveListing.ListingName` | client.js:87 | corrected, no ensures of its own: the name column after four padded columns and one space; `DriveListing.ListingNameOfLine` states it yields the name of every such line |
| `DriveListing.IsFolderInDrive` | client.js:83-91 | no ensures of its own: `folders.includes(folderName)` over the column-read names; `DriveListing.IsFolderInDriveIff` states when it is true |
| `DriveListing.IndexOf` | client.js:87 | the index found is an occurrence of the separator and no earlier one exists; none is found only when there is none |
| `DriveListing.JoinSplit` | client.js:87 | `s.split(sep).join(sep)` is `s` |
| `DriveListing.SplitPartsFree` | client.js:87 | no piece of a split contains the separator |
| `DriveListing.FolderNameOfListingLine` | client.js:87 | for a line "A-1B-1 NAME" whose A and B hold no "-1", the extracted folder name is NAME, even if NAME contains "-1" |
| `DriveListing.NoDashFree` | client.js:87 | a text without '-' holds no separator |
| `DriveListing.FreeConcat` | client.js:87 | two separator-free texts stay separator-free when joined, unless the junction spells "-1" |
| `DriveListing.DatedLineMisread` | client.js:87 | as written: when the date column holds a third "-1", the extraction returns the rest of the line from inside the date, not the name |
| `DriveListing.NovemberFolderMisread` | client.js:87 | as written: the line for a folder "Name" dated 2019-11-05 is read as "-05 10:00:00        -1 Name" |
| `DriveListing.ListingNameOfLine` | client.js:87 | corrected: for a line of four padded space-free columns (size, date, time, count), one space and NAME, the extracted name is NAME, whatever NAME contains |
| `DriveListing.NovemberFolderListed` | client.js:87 | corrected: the 2019-11-05 line for "Name" is read as "Name" |
| `DriveListing.FolderNames` | client.js:87 | corrected: one column-read name (`ListingName`) per listing line, in order, standing for `out.map(...)` |
| `DriveListing.IsFolderInDriveIff` | client.js:83-91 | the probe is true exactly when some listing line's name equals the torrent's name |
| `Admission.IsMagnetLink` | client.js:187 | no ensures of its own: `item.link.startsWith('magnet:')`; `Admission.ResolveMagnet` states how it decides an entry's magnet |
| `Admission.ResolveMagnet` | client.js:186-192 | a `magnet:` link is used unchanged; any other link resolves to the redirect's Location header, possibly null |
| `Admission.JsSliceIndex` | client.js:183-184 | the JavaScript `slice` bound lies in the array, is `min(k, len)` for `k >= 0` and counts `-k` from the end otherwise |
| `Admission.JsSplit` | client.js:183-184 | as written: admitted ++ remaining is the old queue, and for `k >= 0` the admitted entries are the first `min(k, len)` |
| `Admission.NegativeSlotsAdmitAlmostAll` | client.js:183-184 | as written, with `k < 0` all but the last `-k` entries are admitted |
| `Admission.AdmissionSplit` | client.js:183-184 | corrected split: admitted ++ remaining is the old queue, the admitted entries are a prefix of length `min(k, len)`, and none are admitted when `k <= 0` |
| `Admission.AdmissionSplitAgrees` | client.js:183-184 | for `k >= 0` the corrected split equals the code's |
| `Admission.TorrentsInProgress` | client.js:46 | the result holds exactly the incomplete torrents of the engine, and no more torrents than it |
| `Admission.InProgressCounts` | client.js:46 | each incomplete torrent occurs in the result as often as among the engine's torrents, a complete one never |
| `Admission.TwoSlotsExample` | client.js:181-184 | two slots and five entries admit exactly two; with one of two torrents complete, one more is admitted |
| `Policy.RatioExceeded` | client.js:249 | no ensures of its own: `uploaded / downloaded > maxRatio`, cross-multiplied; `Policy.RatioExceededMeansQuotient` states it equals the quotient, with the x/0 and 0/0 cases |
| `Policy.ElapsedExceeds` | client.js:239-240 | no ensures of its own: elapsed milliseconds over `max * 1000`, for the stall check and the seeding check (client.js:252); `Policy.ElapsedExceedsMeansSeconds` states it equals the division by 1000 |
| `Policy.Supervise` | client.js:238-261 | no ensures of its own: the stall, ratio and seeding checks in their order; `Policy.StallRetirement`, `Policy.IncompleteOnlyStalls`, `Policy.RatioRetirement` and `Policy.SeedingRetirement` state when each fires |
| `Policy.FirstChecks` | client.js:218-236 | no ensures of its own: the first-tick history check, then the Drive probe; `Policy.HistoryRetirement`, `Policy.HistoryRetirementEndsTick`, `Policy.HistoryWrites` and `Policy.DriveProbe` state what it decides and writes |
| `Policy.Step` | client.js:216-262 | no ensures of its own: one checker tick, the first checks and, when they do not retire, supervision; the retirement lemmas below characterise it, and `Client.Session.Tick` is proved equal to it |
| `Policy.RatioExceededMeansQuotient` | client.js:249 | the cross-multiplied check equals `uploaded / downloaded > maxRatio` over the reals, with JavaScript's x/0 and 0/0 cases |
| `Policy.ElapsedExceedsMeansSeconds` | client.js:239-240 | the millisecond comparison equals `(now - t) / 1000 > max` |
| `Policy.StepKeepsTimes` | client.js:216-262 | a tick sets `initialCheckDone` and never changes `createdAt` or `downloadFinishedAt` |
| `Policy.HistoryRetirement` | client.js:218-227 | the info-hash check retires exactly on the first tick with a hit; later ticks do not consult the history |
| `Policy.HistoryRetirementEndsTick` | client.js:218-222 | a history hit ends the tick with no probe and no write |
| `Policy.HistoryWrites` | client.js:218-234 | the magnet/infoHash pair is recorded once for a first-tick miss and once for a Drive hit, and at no other time |
| `Policy.DriveProbe` | client.js:229-236 | a Drive-found retirement happens exactly when the probe runs (`uploadedToDrive` null, history check passed) and finds the folder; a set flag is left alone; otherwise the flag becomes the probe's answer |
| `Policy.StallRetirement` | client.js:238-244 | "no peers" retirement happens exactly for an incomplete torrent below the speed floor and older than the window, after the first checks pass; within the window the tick continues |
| `Policy.IncompleteOnlyStalls` | client.js:238-261 | an incomplete torrent is never retired for ratio or seeding time |
| `Policy.RatioRetirement` | client.js:246-251 | ratio retirement happens exactly when the torrent is complete, `uploadedToDrive` was already true and the ratio is exceeded |
| `Policy.SeedingRetirement` | client.js:246-256 | seeding retirement additionally needs no ratio hit, a set `downloadFinishedAt` and more than the seeding window since it |
| `Policy.TimeRetirementsPersist` | client.js:238-256 | a stall or seeding-time retirement still happens when the tick comes later |
| `Policy.RatioExample` | client.js:246-251 | 300 bytes up for 100 down against a maximum ratio of 2.0 retires with "ratio reached" |
| `Client.Admit` | client.js:193-203 | no ensures of its own: a null magnet is discarded, one in history skipped, any other added; `Client.Orchestrator.AdmitEntry` states the method that does this against it |
| `Client.SerialRun` | client.js:185-206 | no ensures of its own: entries admitted one after another, each seeing the records before it; `Client.SerialRunRecords`, `Client.SerialRunSees`, `Client.SerialRunAddsOnce` and `Client.SerialRunAdmitted` fix its meaning |
| `Client.AdmittedAsRun` | client.js:185-206 | no ensures of its own: the order in which `forEach(async ...)` runs the callbacks (magnet-link look-ups first, then their records, then their engine adds, then the redirected entries one after another); `Client.AdmittedAsRunHistory` and `Client.AdmittedAsRunOutcomes` state its consequences |
| `Client.Orchestrator.constructor` | client.js:17-26 | the history and the queue start empty |
| `Client.Orchestrator.Record` | client.js:22-24 | `set` updates the history and logs the write, keeping the invariant |
| `Client.Orchestrator.AfterRemove` | client.js:104-106 | each interval of the list is cleared, in order |
| `Client.Orchestrator.RemoveTorrent` | client.js:95-101 | the torrent is destroyed, then its folder deleted, and nothing else happens |
| `Client.Orchestrator.HandleFeedItems` | client.js:109-112 | the new queue is a permutation of the old queue followed by the batch, with the summed length |
| `Client.Orchestrator.IngestionCycle` | client.js:114-160 | with more than 10 items queued the cycle is skipped and the queue unchanged; otherwise the queue becomes a permutation of the old queue plus every batch |
| `Client.Orchestrator.AdmitEntry` | client.js:185-206 | a null magnet or a magnet in history changes nothing; a new magnet is recorded in the history and only then handed to the engine |
| `Client.Orchestrator.LookUpMagnetLinks` | client.js:185-190 | every magnet link of the tick is looked up in the history as the tick found it, before any of them is recorded; the new ones are collected in queue order |
| `Client.Orchestrator.RecordMissed` | client.js:197-202 | each new magnet link is recorded in turn, and the history gains exactly those keys |
| `Client.Orchestrator.AddMissed` | client.js:204-206 | each recorded magnet link is handed to the engine in turn, leaving the history as it is |
| `Client.Orchestrator.RecordThenAdd` | client.js:197-206 | all the new magnet links are recorded, and then all of them are handed to the engine |
| `Client.Orchestrator.AdmitRedirected` | client.js:185-206 | the other entries go on one after another as their requests answer, each seeing what the entries before it recorded; the magnet links keep their outcomes |
| `Client.Orchestrator.AdmitAll` | client.js:185-206 | the tick runs as `AdmittedAsRun` says; each entry is discarded exactly when its magnet is null, every resolved magnet ends up in history, nothing already there is added; the history gains exactly the added magnets and the log is the records then adds of the magnet links followed by the redirected entries' record-add pairs |
| `Client.Orchestrator.AdmissionTick` | client.js:181-206 | the queue is split at `maxSimultaneousDownloads - inProgress` (corrected split) and the admitted entries are handled as in `AdmitAll`, with the same history and log |
| `Client.Orchestrator.AdmitSerially` | client.js:185-206 | corrected: the entries admitted one after another; each entry's outcome fits its magnet, nothing already in history is added and no magnet is handed to the engine twice |
| `Client.RecordAllTagged` | client.js:17-25 | recording a list of magnets adds exactly those keys, each tagged "magnet" |
| `Client.SerialRunRecords` | client.js:197-202 | an admission run records exactly the magnets it reports as added |
| `Client.SerialRunSees` | client.js:185-206 | in a run one after another, each entry finds the history it started from plus the magnets added before it |
| `Client.SerialRunAddsOnce` | client.js:197-206 | a run one after another adds only magnets absent from its starting history, and none twice |
| `Client.SerialRunAdmitted` | client.js:185-206 | every entry of such a run fits its magnet in the history the run leaves, which keeps every key it started with |
| `Client.MagnetLinkLookedUp` | client.js:185-190 | in a tick, a magnet link's outcome is its look-up in the history the tick found |
| `Client.AdmittedAsRunHistory` | client.js:185-206 | after a tick the history is the one it found plus the added magnets, and the log is the magnet links' records, then their engine adds, then the redirected entries' pairs |
| `Client.AdmittedAsRunOutcomes` | client.js:185-206 | after a tick every entry's outcome fits its resolved magnet in the new history, and nothing added was in the old one |
| `Client.SameMagnetLinkAddedTwice` | client.js:185-206 | as written: two queue entries with the same new magnet link in one tick are both added, so the magnet is recorded twice and handed to the engine twice |
| `Client.SameMagnetTwiceSerially` | client.js:185-206 | corrected: admitted one after another, the second entry finds the first's magnet in history and is skipped |
| `Client.SerialAdmission` | client.js:185-206 | corrected: a whole tick admitted one after another fits every entry, adds nothing already in history and no magnet twice |
| `Client.Session.constructor` | client.js:206-213 | a new torrent gets `createdAt = now`, null `uploadedToDrive` and `downloadFinishedAt`, and a false `initialCheckDone` |
| `Client.Session.RecordPair` | client.js:223-224 | the magnet and then the info hash are written to the history, in that order, and the queue is untouched |
| `Client.Session.Remove` | client.js:95-106 | retiring clears the checker interval (evaluated as an argument), then destroys, then deletes the folder |
| `Client.Session.InitialCheck` | client.js:218-227 | `initialCheckDone` is set before the lookup; a hit retires; a miss records the magnet and the info hash |
| `Client.Session.ProbeDrive` | client.js:229-236 | the flag becomes the probe's answer; found records both keys and retires |
| `Client.Session.RunFirstChecks` | client.js:218-236 | the history check and the Drive probe together give `FirstChecks`' result and fields, record the pair as often as it says and, on a retirement, log clear, destroy and delete and stop ticking |
| `Client.Session.SuperviseTorrent` | client.js:238-261 | the stall, ratio and seeding checks decide as the policy says, and only a retirement has effects |
| `Client.Session.Tick` | client.js:216-262 | one tick, given the Drive probe's answer for the torrent's name, yields `Step`'s result and fields; it records the pair as often as `Step` says; on retirement it logs clear, destroy and delete and stops ticking |
| `Client.Session.OnDone` | client.js:264-266 | the `done` handler sets `downloadFinishedAt = now` and starts the upload, changing nothing else |
| `Client.Session.OnUploadComplete` | client.js:266-269 | the upload callback sets `uploadedToDrive` to true |

## Left out

- The Redis history backend (client.js:47-64) is a foreign client. The in-memory map stands in for it.
- Feed fetching, XML parsing and the scraper module `mejortorrent.js` are network I/O and foreign libraries. Their output enters as already-normalised batches, or as raw xml2js records for `FeedItems`.
- `encodeURI` is taken as the identity. It never changes the `magnet:` prefix that resolution looks at.
- The ingestion timer is not modelled, because the `await` inside the non-async arrow at client.js:149 makes the file fail to parse. Only the skip rule and the appends of one cycle are modelled.
- Timers, `setInterval` and interleaving between ticks are left out. Each tick, admission step and ingestion cycle is one atomic call. Within an admission tick the interleaving of the `forEach(async ...)` callbacks is modelled (`Client.AdmittedAsRun`).
- Client.Orchestrator.AdmitAll: the callbacks of redirected entries are taken to resume in queue order, each running to its end before the next; the real order depends on when each request answers. What the engine does with a magnet handed to it twice is not modelled.
- Client.Orchestrator.AdmissionTick: splits the queue with the corrected `Admission.AdmissionSplit`, not the code's `slice` with a negative bound (see Findings); with `k >= 0` the two agree (`Admission.AdmissionSplitAgrees`).
- DriveListing.IsFolderInDrive: reads each line's name by columns (`DriveListing.ListingName`, mapped over the listing by `DriveListing.FolderNames`), not with the code's `split('-1')` (see Findings); the code's extraction is `DriveListing.FolderName`, and for lines whose padding and date hold no "-1" it gives the name too (`DriveListing.FolderNameOfListingLine`).
- A failed redirect request, and the `ReferenceError` on the out-of-scope `res` at client.js:194, reject the async callback's promise, and nothing handles that rejection. Node before version 15 only warns, so the entry is lost; from Node 15 on, an unhandled rejection ends the process. The model treats both as the discarded path, and does not model the process ending.
- The rclone `lsd` call is a child process. `DriveListing` models what is done with its output, and `Client.Session.Tick` takes the resulting yes/no answer as a parameter.
- The progress table loop (client.js:162-179), console output, `prettyBytes` and `toFixed` are presentation only.
- The fatal error handler (client.js:276-280) passes strings to `clearInterval`, which has no effect.
- The engine itself (peers, pieces, metadata) is not modelled. Its metrics and the `done` event are inputs, and the model does not enforce that `done` fires at most once.
- Floating-point `progress` is reduced to "complete or not". Speeds, byte counts and configuration values are integers, and `maxRatio` is a fraction.
- Keys inherited from JavaScript's object prototype (for example `"constructor"`) count as present in the real dictionary. Magnets and info hashes never take such names, so the model ignores them.
- `Client.Orchestrator.HandleFeedItems`: the sort by `pubDate` leaves the queue in an engine-dependent order, because the comparator returns a boolean. The model keeps concatenation order and states only the permutation and the length.

## Findings

| source | as written | input that shows it | evidently intended | confidence | as-written member | corrected member |
|---|---|---|---|---|---|---|
| client.js:185-206 | each `forEach(async ...)` callback checks the history for its magnet link before any callback records one | two queue entries with the same new magnet link admitted in one tick: both are recorded and both handed to `torrentClient.add` | a magnet already being admitted in the tick is skipped, as admitting one after another gives (`Client.SerialAdmission`) | not executed; follows from JavaScript running each async callback up to its first `await` | `Client.SameMagnetLinkAddedTwice` | `Client.Orchestrator.AdmitSerially` |
| client.js:87 | `l.split('-1').slice(2).join('-1').slice(1)` assumes the only "-1"s before the name are the size and count columns | a folder "Name" dated 2019-11-05: the line "          -1 2019-11-05 10:00:00        -1 Name" gives "-05 10:00:00        -1 Name", so the probe misses the folder | the name column after size, date, time and count (`DriveListing.DatedLineMisread` states the general case, `DriveListing.NovemberFolderListed` the corrected reading of the same line) | not executed; follows from JavaScript `split` semantics and rclone's date column | `DriveListing.NovemberFolderMisread` | `DriveListing.ListingNameOfLine` |
| client.js:183-184 | `slice(0, k)` / `slice(k)` with `k = maxSimultaneousDownloads - inProgress`; a negative `k` counts from the end of the queue | max 2, three torrents in progress (possible while redirect requests of an earlier tick are still pending), five queued: `k = -1` admits four entries | admit nothing when no slot is free | not executed; follows from JavaScript `slice` semantics | `Admission.NegativeSlotsAdmitAlmostAll` | `Admission.AdmissionSplit` |
