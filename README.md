# Offline interview store, sync passes, progress report and route guard

This project models the core of the London Pesquisas field-survey app. Interviewers fill in electoral surveys on a phone. The app keeps each interview in an on-device key-value store and uploads it to the remote database later. The model covers four parts:

- **Offline store and pending-sync ledger** (`offline_storage.dfy`, module `OfflineStorage`).
  - The device store is a map from string keys to records. Interviews sit under `interviews_<id>`, surveys under `surveys_<id>`, and one `pending_sync` entry holds the ledger of interviews not yet acknowledged by the remote database.
  - The ledger is a record of the same map, so clearing the store clears it too, as `localforage.clear()` does.
  - Every operation is a function on the map (`SaveInterviewDb`, `MarkSyncedDb`, ...). These functions carry the contracts and the lemmas.
  - Class `OfflineStore` holds the map in a field `items`. Its methods perform the same `setItem`/`removeItem` steps one by one and are proved equal to those functions.
  - `SyncOfflineData` is the batch loop over a snapshot of the ledger. Its loop invariant ties the store after each step to `MarkAllSynced` of the ids accepted so far.
- **Upload sweep** (`sync_service.dfy`, module `SyncService`).
  - `SyncPendingInterviews` lists the stored interviews and keeps the completed ones. It uploads the row `ToRow` builds for each one and deletes the local record when the upload succeeds.
  - The store passed in is the same `OfflineStore`.
- **Progress report and column widths** (`report_generator.dfy`, module `ReportGenerator`).
  - `GenerateProgressReport` computes the overall and per-survey counts and percentages.
  - `ColumnWidths` is the nested loop behind the spreadsheet's automatic column widths.
- **Route guard** (`middleware.dfy`, module `Middleware`): `Route` decides, for one request, whether it passes or is redirected.

Shared records are in `types.dfy`: Interview, Survey, SurveyQuestion and the status enum of `src/types/database.ts:23-65`, and the role of `UserRole.role` at `src/types/database.ts:7`. Generic sequence facts are in `seqs.dfy`: the `includes`/`push` append, the `filter` used for the ledger and the interview lists, and counting.

Environment inputs become parameters:
- `accepts: Interview -> bool` is the remote upsert's answer for each record.
- `upload: InterviewRow -> bool` is the remote insert's answer for each row.
- `toIso` stands for `Date.toISOString`.
- `now`, `generatedAt` and `lastUpdate` are the clock readings.
- `hasSession` and `role` are the Supabase session and the `user_roles` lookup.

Storage errors are not modelled: every `getItem`, `setItem` and `removeItem` succeeds. The code swallows most of them, and doing so is not always harmless. A failed ledger read becomes the empty ledger, and the next write stores that empty ledger back, dropping every pending id (see "## Left out").

`sync-service.ts` calls `getAllInterviews` and `deleteInterview` on the store, and neither exists in `offline-storage.ts`. Class `OfflineStorage` (src/lib/offline-storage.ts:223-236) has only `getPendingSyncCount`. The model reads these calls as follows:
- `getAllInterviews` is `getAllOfflineInterviews`.
- `deleteInterview` removes the record key `interviews_<id>` only. The ledger is not touched.
- Their `OfflineInterview` record is the database `Interview`: `surveyId` is `survey_id`, `location` is latitude/longitude/accuracy, and `timestamp` is `created_at`.

Under this reading the ledger may name records that are no longer stored. The store's own operations keep every pending id backed by its record (`LedgerTracked`): a save, a mark-synced and a sync pass all preserve it. The upload sweep does not: the `deleteInterview` reading above removes a record and leaves its id pending (`SyncService.SweepLeavesStalePending`).

## Model

| member | source | states |
|---|---|---|
| OfflineStorage.InterviewKey | src/lib/offline-storage.ts:14-18 | an interview key starts with "interviews", is never "pending_sync", and ends with the id, so different ids give different keys |
| OfflineStorage.SurveyKey | src/lib/offline-storage.ts:95 | a survey key never starts with "interviews", is never "pending_sync", and ends with the id |
| OfflineStorage.ReadPendingSync | src/lib/offline-storage.ts:119-126 | a missing ledger reads as `{interviews: [], lastSyncAttempt: null}`; a stored ledger reads back as itself, and any other result is the stored entry |
| OfflineStorage.PendingSyncCount | src/lib/offline-storage.ts:141-148 | the count is 0 when the ledger entry is missing, and 0 exactly when no interview is pending |
| OfflineStorage.PendingSyncCountDistinct | src/lib/offline-storage.ts:233-235 | in a valid store the pending count is the number of distinct pending interviews |
| OfflineStorage.ReadInterview | src/lib/offline-storage.ts:62-69 | a result is the record stored under `interviews_<id>`; in a well-keyed store it is present exactly when that key is, and has that id |
| OfflineStorage.ReadSurvey | src/lib/offline-storage.ts:104-111 | the same for `surveys_<id>` |
| OfflineStorage.InterviewKeysHoldInterviews | src/lib/offline-storage.ts:75 | in a well-keyed store the "interviews" prefix selects exactly the interview records (not the ledger, not the surveys) |
| OfflineStorage.SaveInterviewDb | src/lib/offline-storage.ts:43-59 | after a save the record reads back; the id is appended to the ledger only when absent; no other key changes |
| OfflineStorage.MarkSyncedDb | src/lib/offline-storage.ts:129-138 | the ledger becomes the old ledger with the id filtered out, the record is gone, and no other key changes |
| OfflineStorage.SaveSurveyDb | src/lib/offline-storage.ts:93-101 | the survey reads back; the ledger and every other key are unchanged |
| OfflineStorage.StampSyncAttempt | src/lib/offline-storage.ts:181-183 | only `lastSyncAttempt` changes: it becomes the time of this attempt |
| OfflineStorage.SaveInterviewIdempotent | src/lib/offline-storage.ts:48-52 | saving the same interview twice gives the store one save gives, so no duplicate id is added |
| OfflineStorage.MarkSyncedIdempotent | src/lib/offline-storage.ts:129-134 | marking an interview synced twice gives the store one mark gives |
| OfflineStorage.SaveThenMarkSynced | src/lib/offline-storage.ts:129-134 | save followed by mark-synced leaves neither the record nor the id, and restores a ledger that did not hold the id |
| OfflineStorage.WithoutAppended | src/lib/offline-storage.ts:132 | filtering out an id that was just appended gives back the earlier ledger |
| OfflineStorage.SaveInterviewInvariants | src/lib/offline-storage.ts:45-52 | a save keeps the store valid (records under their keys, no duplicate pending id) and keeps every pending id backed by its record |
| OfflineStorage.MarkSyncedInvariants | src/lib/offline-storage.ts:131-134 | mark-synced keeps both invariants |
| OfflineStorage.SaveSurveyInvariants | src/lib/offline-storage.ts:95 | saving a survey keeps both invariants |
| OfflineStorage.StampSyncAttemptInvariants | src/lib/offline-storage.ts:181-183 | the final ledger write keeps both invariants |
| OfflineStorage.DeleteRecordInvariants | src/lib/sync-service.ts:28 | deleting a record keeps the store valid and leaves the ledger as it was |
| OfflineStorage.Synced | src/lib/offline-storage.ts:159-169 | the ids in the list whose record is stored and accepted by the remote |
| OfflineStorage.Refused | src/lib/offline-storage.ts:159-173 | the ids in the list whose record is stored and refused by the remote |
| OfflineStorage.SyncCounts | src/lib/offline-storage.ts:159-179 | successes plus failures never exceed the list, and equal it when every id has its record |
| OfflineStorage.MarkAllSyncedValid | src/lib/offline-storage.ts:168 | marking any list of ids synced keeps the store valid |
| OfflineStorage.MarkAllSyncedSnoc | src/lib/offline-storage.ts:159-168 | proof step for the loop: unfolds `MarkAllSynced` at `ids + [x]` into one more mark-synced on the result |
| OfflineStorage.MarkAllSyncedLedger | src/lib/offline-storage.ts:131-133 | marking a list synced filters each of its ids out of the ledger in turn and keeps `lastSyncAttempt` |
| OfflineStorage.MarkAllSyncedReads | src/lib/offline-storage.ts:134 | marking a list synced deletes exactly the records of those ids |
| OfflineStorage.MarkAllSyncedFrame | src/lib/offline-storage.ts:129-138 | marking ids synced changes no key other than the ledger and the interview records |
| OfflineStorage.SyncOfflineDataDb | src/lib/offline-storage.ts:151-190 | a sync pass keeps the store valid |
| OfflineStorage.SyncOfflineDataOutcome | src/lib/offline-storage.ts:157-183 | after a pass, accepted interviews are neither pending nor stored; refused and record-less ids stay pending with records unchanged; `lastSyncAttempt` is the time of the pass; surveys are untouched |
| OfflineStorage.SyncOfflineDataTracked | src/lib/offline-storage.ts:157-183 | a pass keeps every remaining pending id backed by its record |
| OfflineStorage.SyncCountersBound | src/lib/offline-storage.ts:153-179 | success + failed never exceeds the pending count, and equals it when every pending id has its record |
| OfflineStorage.SyncLoopStep | src/lib/offline-storage.ts:159-179 | one loop step: the next id still reads as before the loop; if accepted it is marked synced and counted as a success, if refused it is counted as a failure, and an id without a record changes nothing |
| OfflineStorage.SyncedSnoc | src/lib/offline-storage.ts:162-173 | proof step for the loop: unfolds `Synced` and `Refused` at `ids + [x]`, so each list grows by the next id exactly when it is accepted, or refused |
| OfflineStorage.PartialFailureExample | src/lib/offline-storage.ts:159-183 | in a valid store with three pending interviews, of which the second is refused: two successes, one failure, and only the second still pending and stored |
| OfflineStorage.OfflineStore.constructor | src/lib/offline-storage.ts:6-11 | a new store is empty and valid |
| OfflineStorage.OfflineStore.SaveInterviewOffline | src/lib/offline-storage.ts:43-59 | the step-by-step save leaves exactly `SaveInterviewDb` of the old store and keeps it valid |
| OfflineStorage.OfflineStore.SaveSurveyOffline | src/lib/offline-storage.ts:93-101 | leaves exactly `SaveSurveyDb` of the old store |
| OfflineStorage.OfflineStore.MarkInterviewAsSynced | src/lib/offline-storage.ts:129-138 | the ledger write followed by the record removal leaves exactly `MarkSyncedDb` of the old store |
| OfflineStorage.OfflineStore.DeleteInterview | src/lib/sync-service.ts:28 | removes the record key and nothing else |
| OfflineStorage.OfflineStore.ClearOfflineStorage | src/lib/offline-storage.ts:213-221 | the store is empty and the pending count is 0 |
| OfflineStorage.OfflineStore.GetAllOfflineInterviews | src/lib/offline-storage.ts:72-90 | the result holds every record under an "interviews" key, holds only stored records, and has no id twice |
| OfflineStorage.OfflineStore.SyncOfflineData | src/lib/offline-storage.ts:151-190 | the loop over the ledger snapshot leaves exactly `SyncOfflineDataDb` of the old store and returns the numbers of accepted and refused records |
| Seqs.AppendIfAbsent | src/lib/offline-storage.ts:49-50 | the id ends up in the ledger; an absent id is appended exactly once at the end, and a present one changes nothing; a ledger without duplicates stays without duplicates |
| Seqs.Without | src/lib/offline-storage.ts:132 | every occurrence of the id is removed and every other element keeps its count |
| Seqs.WithoutMembers | src/lib/offline-storage.ts:132 | the filtered ledger holds exactly the other ids |
| Seqs.WithoutAllMembers | src/lib/offline-storage.ts:159-169 | filtering out a list of ids one by one keeps exactly the ids not in the list |
| Seqs.WithoutDistinct | src/lib/offline-storage.ts:132 | filtering keeps a ledger free of duplicates and drops exactly one entry when the id was present |
| Seqs.WithoutIsSubsequence | src/lib/offline-storage.ts:132 | filtering keeps the remaining ids in their order |
| Seqs.DistinctCardinality | src/lib/offline-storage.ts:144 | a list without duplicates has as many elements as its set |
| Seqs.Filter | src/lib/sync-service.ts:18-20 | `filter` keeps exactly the elements satisfying the test, and never more than there were |
| Seqs.FilterSnoc | src/lib/report-generator.ts:257 | proof step for the counts: unfolds `Filter` at `s + [x]`, which keeps the new element exactly when it passes |
| Seqs.FilterCount | src/lib/report-generator.ts:257 | `filter(p).length` is the number of positions whose element satisfies p |
| Seqs.CountWhereSnoc | src/lib/report-generator.ts:257 | one more element at the end adds one to the count exactly when it satisfies p |
| Seqs.FilterFilter | src/lib/report-generator.ts:261-262 | filtering by one test and then another is filtering by their conjunction |
| SyncService.ToRow | src/lib/sync-service.ts:39-53 | the uploaded row keeps the id, survey, answers and coordinates, has status submitted, `is_offline` and `offline_synced` true, and `created_at` from the interview's timestamp |
| SyncService.ToRowInjective | src/lib/sync-service.ts:41-53 | equal rows come from interviews with the same id, survey, answers and coordinates |
| SyncService.CompletedOnly | src/lib/sync-service.ts:17-20 | exactly the completed interviews are kept |
| SyncService.FilterDistinctIds | src/lib/sync-service.ts:18-20 | filtering keeps interview ids distinct |
| SyncService.KeySetCardinality | src/lib/sync-service.ts:25-34 | interviews with distinct ids have as many store keys as there are interviews |
| SyncService.SweepKeepsOthers | src/lib/sync-service.ts:25-34 | the sweep removes only completed, accepted interview records; non-completed and refused records, the ledger and the surveys stay as they were; the store stays valid |
| SyncService.SweepLeavesStalePending | src/lib/sync-service.ts:28 | a pending interview whose record the sweep deleted is still in the ledger, and a later `syncOfflineData` counts it neither as a success nor as a failure |
| SyncService.ListedKeys | src/lib/sync-service.ts:17-20 | when the listing is exactly the stored interviews, the completed ones are the completed records and the accepted ones are the uploaded records |
| SyncService.SweepStep | src/lib/sync-service.ts:25-34 | one loop step: an accepted interview is one more success and one more deleted key, a refused one changes nothing |
| SyncService.SweepTotals | src/lib/sync-service.ts:22-36 | the deleted keys are the uploaded records, success is their number, and the completed list is as long as the store has completed records |
| SyncService.SyncPendingInterviews | src/lib/sync-service.ts:16-37 | the store loses exactly the completed records whose upload succeeds; success is their number; success + failed is the number of completed records |
| ReportGenerator.Percentage | src/lib/report-generator.ts:258 | 0 when the whole is 0, otherwise part/whole·100 as an exact rational (p·whole = part·100; the source rounds to doubles), and within [0, 100] when part ≤ whole |
| ReportGenerator.Progress | src/lib/report-generator.ts:260-270 | total counts the interviews of the survey, completed counts the completed ones among them, completed ≤ total, and the percentage is theirs |
| ReportGenerator.GenerateProgressReport | src/lib/report-generator.ts:255-283 | total is the number of interviews, completed the number with status completed, completed ≤ total, the percentage is theirs and within [0, 100], and survey progress has one entry per survey, in input order |
| ReportGenerator.SurveyTotalsBounded | src/lib/report-generator.ts:260-268 | no survey's total exceeds the overall total and no survey's completed count exceeds the overall completed count |
| ReportGenerator.ColWidthIsLeastBound | src/lib/report-generator.ts:226-232 | a column's width is at least 10, at least key length + 2 and value length + 2 for every row reaching it, and equals 10 or one row's demand |
| ReportGenerator.ColumnsIsMaxLength | src/lib/report-generator.ts:234 | the number of columns is the largest number of properties in a row |
| ReportGenerator.ColWidthBeyond | src/lib/report-generator.ts:229 | a column no row reaches has the default width 10 (`acc[index] \|\| 10`) |
| ReportGenerator.ColumnWidths | src/lib/report-generator.ts:226-234 | the reduce and `Object.values` give one width per column, in column order, each equal to the reference width |
| Middleware.PrefixesDisjoint | src/middleware.ts:70-111 | no path starts with two of "/admin", "/interviewer" and "/login" |
| Middleware.Route | src/middleware.ts:62-117 | a request passes exactly when the reference policy allows it: test mode; or for /admin a session with the administrator role, for /interviewer a session with the interviewer role, for /login no session or no role, and any other path. Redirect targets are the two logins and the two dashboards, per branch as in the source |
| Middleware.RedirectSettles | src/middleware.ts:70-117 | a redirected request's target passes for the same session and role, so no redirect loop exists |

## Left out

- `localforage.config`, `initOfflineStorage` and `localforage.ready` (src/lib/offline-storage.ts:6-40) are library setup. Only the key-value semantics are modelled.
- `encrypt`/`decrypt` (src/lib/offline-storage.ts:21-28) are never called.
- `validateLocationInArea` (src/lib/offline-storage.ts:193-210) and the geolocation module are floating-point trigonometry and platform callbacks.
- Storage exceptions and the `try`/`catch` paths are not modelled. Every `setItem`/`getItem`/`removeItem` succeeds. An upsert that throws has the same effect as one that returns an error (one more failure), so `accepts` covers both.
- Asynchronous interleaving is not modelled. Each operation runs to completion before the next starts.
- The singletons `OfflineStorage.getInstance` and `SyncService.getInstance`, `isOnline`, and the `startAutoSync` listener and timer (src/lib/sync-service.ts:58-74) are event-driven and concurrent.
- OfflineStorage.OfflineStore.GetAllOfflineInterviews: the order of the result is not stated, because `localforage.keys()` gives no documented order.
- OfflineStorage.OfflineStore.SyncOfflineData: the outer `catch` (src/lib/offline-storage.ts:185-187) is not modelled. It is reached when the ledger write at line 183 fails, or when a malformed stored ledger makes the loop at line 159 throw. The `new Date().toISOString()` value is the parameter `now`.
- OfflineStorage.ReadPendingSync: a failed read is not modelled, because every `getItem` succeeds here. `getPendingSync` (src/lib/offline-storage.ts:119-126) turns such a failure into the empty ledger. The stamp (lines 181-183), a save (lines 48-51) or a mark-synced (lines 131-133) then writes that empty ledger back, dropping every pending id.
- SyncService.ToRow: `new Date(timestamp).toISOString()` is the parameter `toIso`. The date conversion itself is not modelled.
- `OfflineInterview`, `getAllInterviews` and `deleteInterview` are used by src/lib/sync-service.ts but defined nowhere in the code base. They are not part of this model beyond the reading given above.
- SyncService.SyncPendingInterviews: models the sweep under the reading of `getAllInterviews`, `deleteInterview` and `OfflineInterview` given above, not the code as it would run. As written, `this.offlineStorage.getAllInterviews` at src/lib/sync-service.ts:17 is undefined; next.config.ts:5-7 sets `ignoreBuildErrors`, so the type error does not stop the build. The call therefore throws a TypeError, and `syncPendingInterviews` rejects before uploading or deleting anything.
- SyncService.ToRow: taking `timestamp` to be `created_at` is an assumption. The stored records are database `Interview`s (src/types/database.ts:47-65), which have no `timestamp` field. As written, `new Date(undefined).toISOString()` at src/lib/sync-service.ts:52 would throw a RangeError, and every upload would count as a failure. The parameter `toIso` hides this.
- ReportGenerator.Percentage: computes exact rationals where src/lib/report-generator.ts:258 and :268 compute `(completed / total) * 100` in IEEE-754 doubles. For 1 of 3 the model gives 100/3, while the source gives 33.33333333333333. The 0 case and the [0, 100] bound hold for the doubles as well. The same applies to ReportGenerator.Progress and ReportGenerator.GenerateProgressReport.
- ReportGenerator.ColumnWidths:
  - String lengths are counted in characters rather than in JavaScript's UTF-16 code units.
  - `toString()` of a cell value is taken as given (`Field.value`).
  - `Object.values` is taken to list the integer keys in ascending order, as JavaScript does.
  - The mapping to `{ width }` objects and the sheet writes are left out.
- ReportGenerator.GenerateProgressReport: the two clock readings (`toISOString`, `toLocaleString('pt-BR')`) are parameters.
- PDF and Excel generation, header styling, metadata sheet and `downloadBlob` (src/lib/report-generator.ts:37-224, 236-253, 285-295) are jsPDF/XLSX library calls and DOM.
- Middleware.Route has three limits:
  - The two `user_roles` queries at src/middleware.ts:77-81 and 93-97 are answered by one `role` input. The source issues two lookups, which could in principle disagree.
  - A role value outside the declared `'interviewer' | 'administrator'` union is not representable.
  - The `config.matcher` restriction (lines 120-126) is not modelled. `Route` decides for every path.
- The cookie plumbing and `NextResponse` objects (src/middleware.ts:5-56) are framework I/O.
- The service worker (public/sw.js), the AI flows, src/lib/auth-utils.ts, the Supabase clients and all pages and components are UI and remote wrappers.
