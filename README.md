# Jenkins monitor background page, modelled in Dafny

This is a model of the core of a Chrome extension's background page
(`extension/js/background.js`). The extension polls one or more Jenkins
servers and keeps their latest job lists in local storage under
`jenkins_data`. It compares each new job list with the stored one and raises
desktop notifications. It also keeps a per-job "watched" flag across polls,
and shows the job count and a red or green colour on the toolbar badge.

The model covers six parts of the page:

- **`hashJobByNames`** (`Jobs.Index`, `Jobs.Names`, `Jobs.HashJobByNames`).
  - It builds the by-name index of a job list.
  - On duplicate names the last job wins: its normalised colour, its url and its position (`seq`).
  - *Names* is the order in which a `for ... in` loop visits the index's keys: the order in which each name first occurs.
- **`makeNotification`** (`Notification.Diff` and the method `Notification.MakeNotification` with its two loops).
  - The notification object's `notify...` calls are modelled as a returned sequence of `Event`s, in the order they are made.
  - The colour table `ColorMap` is a parameter, a total function from colour to `StatInfo(building, status)`.
- **`updateWatched`** (`Watch.UpdateWatched`).
  - It works in place on an `array<Job>`.
  - It is specified by the function `Watch.MergeWatched`.
- **`handleNewData`** (`Background.BackgroundPage.HandleNewData`, specified by `Storage.Handle`).
  - It finds the last stored snapshot with the same url.
  - It raises the events against that snapshot.
  - It carries the flags over.
  - It replaces that snapshot in place, or appends the new one.
- **`toggleWatch`** (`Background.BackgroundPage.ToggleWatch`, specified by `Watch.ToggledData`).
  - Every job of the given name, in every stored snapshot, has its flag flipped or set.
  - The source's `return false` inside `forEach` does not stop the iteration, and the model follows that.
- **`requestData`** (`Background.BackgroundPage.RequestData`, specified by `Poll.BadgeTrace` and `Poll.AfterAnswers`).
  - It covers one polling round.
  - The servers' answers are given as a sequence in the order the callbacks run.
  - The badge calls are returned as a sequence of `BadgeOp`s.

The stored list is a field `store: Option<seq<Snapshot>>` of the class
`Background.BackgroundPage`. `None` stands for the `null` that `start` writes.
Reads and writes of local storage copy values, so the methods work on local
copies and reassign the field.

## Behaviour of the code worth knowing

- **Badge colour.** Every successful callback sets the badge colour from that
  server's jobs alone. So the colour a round ends with is decided by the last
  server that answered successfully. An earlier server's red job is forgotten
  once a later server answers with no red job (`Poll.ColorOfLastSuccess`).
- **Duplicate job names.** `updateWatched` rewrites only the position the
  index keeps for each name, which is the last job of that name. Earlier
  duplicates keep their flag (`Watch.MergeWritesLast`).
- **Removal status.** A removed job is reported with the status held in a
  variable last set for an earlier job; see "## Findings". The rest of the
  model uses the removed job's own status.

## Model

| member | source | states |
|---|---|---|
| `Jobs.Index` | extension/js/background.js:61-74 | every job's name is a key, and every key's entry records a position holding a job of that name |
| `Jobs.IndexKeys` | extension/js/background.js:61-74 | the index's keys are exactly the set of job names |
| `Jobs.IndexEntryIsLast` | extension/js/background.js:65-71 | the entry for a name describes the last job of that name: its position, its colour with an absent or empty colour read as "unknown", and its url |
| `Jobs.UniqueIndexSeq` | extension/js/background.js:65-71 | with unique names, each job's entry records that job's own position |
| `Jobs.Names` | extension/js/background.js:61-74 | the key order lists exactly the index's keys, each once, and is no longer than the job list; its order is stated by `NamesInFirstOrder` |
| `Jobs.NamesInFirstOrder` | extension/js/background.js:65-71 | the key order is first-occurrence order: of two listed names, the earlier one first occurs earlier in the job list |
| `Jobs.UniqueNamesAreAllNames` | extension/js/background.js:61-74 | with unique names, the key order is the job order |
| `Jobs.IndexIgnoresWatched` | extension/js/background.js:61-74 | the index and the key order do not depend on the `watched` flags |
| `Jobs.HashJobByNames` | extension/js/background.js:61-74 | the loop builds exactly the index, and names enter the object in the key order |
| `Notification.OldJobEvent` | extension/js/background.js:85-106 | one old job yields at most one event, and it is about that job |
| `Notification.NewJobEvent` | extension/js/background.js:110-113 | one new job yields at most one event, and it is about that job |
| `Notification.Diff` | extension/js/background.js:76-115 | the events of one call, with the removal status corrected; a definition with no contract of its own, whose properties are stated by `DiffNamed`, `DiffForJobInBoth`, `DiffForRemovedJob`, `DiffForAddedJob`, `DiffForAbsentJob`, `AddsComeLast` and `DiffOfDisjoint` |
| `Notification.NotifyOldJobs` | extension/js/background.js:84-107 | the first loop raises exactly the old-side events, in key order |
| `Notification.NotifyNewJobs` | extension/js/background.js:109-114 | the second loop raises exactly the additions, in key order |
| `Notification.MakeNotification` | extension/js/background.js:76-115 | the whole call raises exactly `Diff` of the two job lists |
| `Notification.DiffNamed` | extension/js/background.js:84-114 | the events about one job are its old-side event followed by its addition event |
| `Notification.DiffForJobInBoth` | extension/js/background.js:88-103 | for a job in both lists: build start if it started building; else build done if it stopped; else status change if the status differs; else no event; statuses from the old and new colours, url from the old job |
| `Notification.BuildStartExcludesStatusChange` | extension/js/background.js:92-103 | a job that starts building gets exactly one event, a build start, even when its status also changed |
| `Notification.DiffForRemovedJob` | extension/js/background.js:104-106 | a job only in the old list gets exactly one removal, with its own old status and url (corrected; see Findings) |
| `Notification.DiffForAddedJob` | extension/js/background.js:109-114 | a job only in the new list gets exactly one addition, with its new status and url |
| `Notification.DiffForAbsentJob` | extension/js/background.js:84-114 | no event names a job that is in neither list |
| `Notification.OldSideHasNoAdd` | extension/js/background.js:84-107 | the first loop raises no additions |
| `Notification.AddedAreAdds` | extension/js/background.js:109-114 | the second loop raises only additions |
| `Notification.AddsComeLast` | extension/js/background.js:84-114 | once an addition is raised, every later event is an addition |
| `Notification.DiffOfIdentical` | extension/js/background.js:84-114 | comparing a job list with itself raises nothing |
| `Notification.DiffOfSameButWatched` | extension/js/background.js:84-114 | lists that differ only in `watched` flags raise nothing |
| `Notification.DiffIgnoresWatched` | extension/js/background.js:84-114 | changing `watched` flags on either side does not change the events |
| `Notification.DiffOfDisjoint` | extension/js/background.js:84-114 | with no name in common: one removal per old name in key order, then one addition per new name in key order |
| `Notification.DiffOfDisjointUnique` | extension/js/background.js:84-114 | the same for lists of unique names, position by position against the job lists |
| `Notification.ScenarioOneJob` | extension/js/background.js:84-114 | one job in both one-job lists: the events are that job's old-side event alone |
| `Notification.ScenarioStatusChange` | extension/js/background.js:100-102 | blue to red raises one status change from "success" to "failure" |
| `Notification.ScenarioBuildStart` | extension/js/background.js:92-94 | blue to blue_anime raises one build start |
| `Notification.ScenarioBuildDone` | extension/js/background.js:96-98 | blue_anime to red raises one build done from "success" to "failure" |
| `Notification.ScenarioMissingColor` | extension/js/background.js:64-68 | a job without a colour, or with an empty one, is looked up as "unknown" when added or removed |
| `NotificationAsWritten.StaleInfo` | extension/js/background.js:84-106 | `oldStatInfo` is unset exactly when no old job visited so far exists in the new list |
| `NotificationAsWritten.OldSideAsWritten` | extension/js/background.js:84-107 | the first loop as written, which throws on a removal while `oldStatInfo` is unset; a definition with no contract of its own, specified by `AsWrittenAgreesWithoutRemovals`, `StaleStatusOnRemoval` and `RemovalFirstThrows` |
| `NotificationAsWritten.DiffAsWritten` | extension/js/background.js:76-115 | the whole call as written, with the second loop skipped once the first has thrown; a definition with no contract of its own, specified by `DiffAsWrittenAgrees`, `StaleStatusOnRemoval` and `RemovalFirstThrows` |
| `NotificationAsWritten.AsWrittenAgreesWithoutRemovals` | extension/js/background.js:84-107 | when every old name survives, the first loop as written raises the intended events and does not throw |
| `NotificationAsWritten.DiffAsWrittenAgrees` | extension/js/background.js:76-115 | when every old job survives, the whole call as written equals `Diff` |
| `NotificationAsWritten.StaleStatusOnRemoval` | extension/js/background.js:104-105 | as written, removing B after a surviving A reports A's status |
| `NotificationAsWritten.RemovalFirstThrows` | extension/js/background.js:104-105 | as written, a removal before any surviving job throws and raises no event |
| `Watch.MergeWatched` | extension/js/background.js:127-132 | only `watched` flags change: names, colours and urls stay as they were, position by position |
| `Watch.UpdateWatched` | extension/js/background.js:117-133 | the array afterwards is `MergeWatched` of the old snapshot and the array as it was |
| `Watch.CarriedWatched` | extension/js/background.js:121-131 | the flag carried for a name: whether there is an old snapshot whose last job of that name is watched; a definition with no contract of its own, specified by `CarriedForNewName` and `CarriedIsLastOld` |
| `Watch.MergeWritesLast` | extension/js/background.js:127-132 | the last job of each name gets the carried flag; every other job is unchanged |
| `Watch.MergeUnique` | extension/js/background.js:127-132 | with unique names, every job gets the flag carried for its name |
| `Watch.CarriedForNewName` | extension/js/background.js:118-131 | without an old snapshot, or for a name the old snapshot lacks, the carried flag is false |
| `Watch.CarriedIsLastOld` | extension/js/background.js:131 | the carried flag is whether the last old job of the name was watched |
| `Watch.MergeIdempotent` | extension/js/background.js:117-133 | merging twice with the same old snapshot equals merging once |
| `Watch.MergeKeepsDiff` | extension/js/background.js:153-160 | carrying flags over never changes the events of a comparison |
| `Watch.NewFlag` | extension/js/background.js:314-318 | the rule for one flag: an undefined `watch` negates the job's truthiness, any other value sets `!!watch`; a definition with no contract of its own, specified by `NewFlagFlipsAndSets`, `ToggleSetsMatching`, `ToggleSetIdempotent` and `FlipTwice` |
| `Watch.NewFlagFlipsAndSets` | extension/js/background.js:314-318 | on one flag, a flip always changes its truth value, two flips restore it, and setting the same value twice equals setting it once |
| `Watch.ToggledData` | extension/js/background.js:307-326 | the stored list after the toggle, with every job of the name updated in every snapshot; a definition with no contract of its own, specified by `ToggleChangesOnlyFlags`, `ToggleSetsMatching`, `ToggleWithoutMatch` and `ToggleSetIdempotent` |
| `Watch.ToggleChangesOnlyFlags` | extension/js/background.js:307-326 | a toggle keeps every url, name, colour and job url, and leaves jobs of other names untouched |
| `Watch.ToggleSetsMatching` | extension/js/background.js:307-326 | every job of the name, in every snapshot, gets the new flag |
| `Watch.ToggleWithoutMatch` | extension/js/background.js:307-326 | with no job of the name, a toggle changes nothing |
| `Watch.ToggleSetIdempotent` | extension/js/background.js:316-318 | setting an explicit flag twice equals setting it once |
| `Watch.FlipTwice` | extension/js/background.js:314-315 | flipping twice restores each matching job's truth value, now stored as a boolean |
| `Storage.LastWithUrl` | extension/js/background.js:144-151 | the result is the last position with the url; it is absent exactly when no stored snapshot has the url |
| `Storage.FindLast` | extension/js/background.js:144-151 | the `forEach` settles on `LastWithUrl` |
| `Storage.Handle` | extension/js/background.js:135-174 | the events, merged snapshot and stored list of one `handleNewData`; a definition with no contract of its own, specified by `HandleReplacesOrAppends`, `HandleThenLookup`, `HandleKeepsJobs`, `HandleUrls`, `HandleKeepsUrlsUnique`, `HandleFirstIsSilent` and `HandleTwiceIsSilent` |
| `Storage.HandleReplacesOrAppends` | extension/js/background.js:162-166 | the new snapshot replaces the matched one in place, or is appended; every other snapshot is unchanged |
| `Storage.HandleThenLookup` | extension/js/background.js:144-166 | afterwards, looking up the url finds the new, flag-merged snapshot |
| `Storage.HandleKeepsJobs` | extension/js/background.js:160 | the stored snapshot keeps the new url and jobs, apart from `watched` flags |
| `Storage.HandleUrls` | extension/js/background.js:162-166 | the stored urls afterwards are those before plus the new one |
| `Storage.HandleKeepsUrlsUnique` | extension/js/background.js:162-166 | from a store without two snapshots of one server, the new store has none either |
| `Storage.HandleFirstIsSilent` | extension/js/background.js:153-158 | the first snapshot of a server raises no events |
| `Storage.HandleTwiceIsSilent` | extension/js/background.js:144-166 | handling the same data a second time raises no events |
| `Poll.HasRedJob` | extension/js/background.js:201-206 | `failed` is `HasRed` of the jobs: some job's colour is "red" exactly |
| `Poll.DecimalString` | extension/js/background.js:221 | the count text is the canonical decimal form of the count: a non-empty string of decimal digits whose value is the count, with no leading zero unless the count is 0 |
| `Poll.CallbackOps` | extension/js/background.js:191-211 | one badge call per callback, and it is the failure text exactly when the fetch failed |
| `Poll.BadgeTrace` | extension/js/background.js:176-226 | the badge calls of a round start with "Loading..." and add at least one call per answer; the count they show is stated by `NoCountBeforeAllAnswered`, `CountAtCompletion`, `AllFailedEndsWithFail` and `ColorOfLastSuccess` |
| `Poll.AnswerStep` | extension/js/background.js:189-218 | one callback's effect on the events, store and collected snapshots: a failure changes nothing, a snapshot goes through `Storage.Handle`; a definition with no contract of its own, specified by `AnswersUrls`, `AnswersKeepUrlsUnique` and `Background.BackgroundPage.Answer` |
| `Poll.AfterAnswers` | extension/js/background.js:215-217 | one snapshot is collected per successful answer |
| `Poll.CountTextIsNumeric` | extension/js/background.js:221 | a count text is neither "Loading..." nor "fail" |
| `Poll.NoCountBeforeAllAnswered` | extension/js/background.js:220-221 | before every server has answered, no badge call shows a count |
| `Poll.CountAtCompletion` | extension/js/background.js:220-221 | after the last answer, the count is shown exactly when some answer succeeded; it is the total job count and the last call, and no earlier call shows a count |
| `Poll.AllFailedEndsWithFail` | extension/js/background.js:191-194 | when every server failed, the badge ends with "fail" |
| `Poll.ColorOfLastSuccess` | extension/js/background.js:207-211 | the last colour set is that of the last successful answer ("#d9534f" if it has a red job, "#5cb85c" otherwise), or none if none succeeded |
| `Poll.AnswersUrls` | extension/js/background.js:188-218 | the stored urls after the answers are those before plus the url of every successful answer |
| `Poll.AnswersKeepUrlsUnique` | extension/js/background.js:188-218 | from a store without two snapshots of one server, no order of answers creates two |
| `Background.BackgroundPage.constructor` | extension/js/background.js:229-233 | `start` leaves the stored data `null` |
| `Background.BackgroundPage.HandleNewData` | extension/js/background.js:135-174 | events, merged snapshot and new store are those of `Storage.Handle` |
| `Background.BackgroundPage.ToggleWatch` | extension/js/background.js:301-332 | `found` holds exactly when a stored job has the name; the store becomes `ToggledData` if so, and is left alone otherwise |
| `Background.BackgroundPage.Answer` | extension/js/background.js:189-218 | the callback's badge calls, job count, events, collected snapshot and store are those of `CallbackOps`, `Added` and `AnswerStep` |
| `Background.BackgroundPage.RequestData` | extension/js/background.js:176-226 | the badge calls are `BadgeTrace`; the events, collected snapshots and store are `AfterAnswers` |

## Left out

- `Jobs.Index`: the source builds its index in a plain object that inherits the members of `Object.prototype`. A job named after one of them, such as `constructor`, `toString` or `__proto__`, behaves differently there: an addition is missed, a removal throws, or `__proto__` replaces the prototype. The model's `map` has no inherited keys, so such names are outside the model.
- Console logging, `emit` and the listeners (`loading`, `error`, `data`) are not modelled; the `data` event fires at the same moment as the count badge call.
- `data.timestamp = new Date()` is not modelled; a snapshot has just a url and jobs.
- The notification object is not modelled; its `notify...` calls are returned as `Event`s.
- The Chrome APIs are outside the model. Local storage is a value field. The badge calls are returned as `BadgeOp`s. Alarms are not modelled.
- `refresh`, `getOptions`, `getData`, `getNextRefreshTime` and `window.on/restart/refresh` are not modelled: they are configuration and plumbing around the core.
- `Jenkins.getJobs` (the network) is not modelled: its answers are the parameter `results`, and the number of servers is `sourceCount`.
- Asynchrony is not modelled. `handleNewData`'s storage callback runs synchronously inside the fetch callback. Other interleavings of several storage reads and writes, where one update can be lost, are not covered.
- The `data` objects collected by `requestData` are the same objects `updateWatched` later mutates. The model collects the merged snapshot.
- `ColorMap` is a total function. A colour missing from the source's table gives `undefined`, and reading `.building` of it throws. The model gives such a colour some `StatInfo` instead.
- `Jobs.Names`: JavaScript enumerates a key that looks like an array index (such as "42") before the other keys, in numeric order. The model uses insertion order for every name.
- `Background.BackgroundPage.ToggleWatch`: on a `null` store the source throws a TypeError inside the storage callback. The model returns `found` false and changes nothing.
- `toggleWatch`'s `watch` argument can be any JavaScript value. It is modelled as an optional boolean: undefined, or the value of `!!watch`.
- `Notification.Diff` models the intended removal status, not the stale variable. The code as written is modelled separately in `NotificationAsWritten`.

## Findings

| source | as written | input that shows it | evidently intended | confidence | as-written member | corrected member |
|---|---|---|---|---|---|---|
| extension/js/background.js:104-105 | a removed job is reported with `oldStatInfo.status`, which was last assigned for an earlier old job that still exists | old [A blue, B red], new [A blue], with blue "success" and red "failure": B's removal reports "success" | the removed job's own status, from its own old colour ("failure") | high; not executed | `NotificationAsWritten.StaleStatusOnRemoval` | `Notification.DiffForRemovedJob` |
| extension/js/background.js:104-105 | when no earlier old job exists in the new list, `oldStatInfo` is undefined and reading `.status` throws | old [B red], new []: the call throws before any event, so `handleNewData` never stores the new snapshot | one removal of B with B's own status | high; not executed | `NotificationAsWritten.RemovalFirstThrows` | `Notification.DiffForRemovedJob` |
