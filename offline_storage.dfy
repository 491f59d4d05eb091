/** The on-device key-value store and its pending-sync ledger
    (src/lib/offline-storage.ts). The store is a map from string keys to
    records; interviews live under "interviews_<id>", surveys under
    "surveys_<id>", and one "pending_sync" entry lists the interviews not yet
    acknowledged by the remote database. */
module OfflineStorage {
  import opened Types
  import opened Seqs

  const InterviewsTable: string := "interviews"
  const SurveysTable: string := "surveys"
  const PendingSyncKey: string := "pending_sync"

  function InterviewKey(id: string): (k: string)
    ensures InterviewsTable <= k && k != PendingSyncKey
    ensures |k| == |InterviewsTable| + 1 + |id| && k[|InterviewsTable| + 1..] == id
  {
    var k := InterviewsTable + "_" + id;
    assert k[0] == 'i';
    assert k[|InterviewsTable| + 1..] == id;
    k
  }

  function SurveyKey(id: string): (k: string)
    ensures !(InterviewsTable <= k) && k != PendingSyncKey
    ensures |k| == |SurveysTable| + 1 + |id| && k[|SurveysTable| + 1..] == id
  {
    var k := SurveysTable + "_" + id;
    assert k[0] == 's';
    assert k[|SurveysTable| + 1..] == id;
    k
  }

  datatype PendingSync = PendingSync(interviews: seq<string>, lastSyncAttempt: Option<string>)

  /** A value of the store: the source keeps three kinds of record in one namespace. */
  datatype Stored =
    | StoredInterview(interview: Interview)
    | StoredSurvey(survey: Survey)
    | StoredPending(pending: PendingSync)

  type Db = map<string, Stored>

  /** The two stores agree on key k: both lack it or both hold the same record. */
  predicate SameEntry(a: Db, b: Db, k: string) {
    (k in a <==> k in b) && (k in a ==> a[k] == b[k])
  }

  /** Each record sits under the key that its kind and its identifier give it. */
  predicate KeyFits(k: string, v: Stored) {
    match v
    case StoredInterview(iv) => k == InterviewKey(iv.id)
    case StoredSurvey(s) => k == SurveyKey(s.id)
    case StoredPending(_) => k == PendingSyncKey
  }

  ghost predicate WellKeyed(db: Db) {
    forall k :: k in db ==> KeyFits(k, db[k])
  }

  /** The store invariant: every record under its own key, no id twice in the ledger. */
  ghost predicate ValidDb(db: Db) {
    WellKeyed(db) && NoDuplicates(ReadPendingSync(db).interviews)
  }

  /** Every pending id still has its interview record in the store. */
  ghost predicate LedgerTracked(db: Db) {
    forall id :: id in ReadPendingSync(db).interviews ==> ReadInterview(db, id).Some?
  }

  // ---------------------------------------------------------------- reads

  /** getPendingSync: a missing entry reads as the empty ledger. */
  function ReadPendingSync(db: Db): (p: PendingSync)
    ensures PendingSyncKey !in db ==> p == PendingSync([], None)
    ensures p != PendingSync([], None) ==> PendingSyncKey in db && db[PendingSyncKey] == StoredPending(p)
    ensures PendingSyncKey in db && db[PendingSyncKey].StoredPending? ==> p == db[PendingSyncKey].pending
  {
    if PendingSyncKey in db && db[PendingSyncKey].StoredPending? then db[PendingSyncKey].pending
    else PendingSync([], None)
  }

  /** getPendingSyncCount (and OfflineStorage.getPendingSyncCount, which delegates to it). */
  function PendingSyncCount(db: Db): (n: nat)
    ensures PendingSyncKey !in db ==> n == 0
    ensures n == 0 <==> ReadPendingSync(db).interviews == []
  {
    |ReadPendingSync(db).interviews|
  }

  /** In a valid store the pending count is the number of distinct pending interviews. */
  lemma PendingSyncCountDistinct(db: Db)
    requires ValidDb(db)
    ensures PendingSyncCount(db) == |set id | id in ReadPendingSync(db).interviews|
  {
    DistinctCardinality(ReadPendingSync(db).interviews);
  }

  /** getInterviewOffline */
  function ReadInterview(db: Db, id: string): (r: Option<Interview>)
    ensures r.Some? ==> InterviewKey(id) in db && db[InterviewKey(id)] == StoredInterview(r.value)
    ensures WellKeyed(db) ==> (r.Some? <==> InterviewKey(id) in db)
    ensures WellKeyed(db) && r.Some? ==> r.value.id == id
  {
    var key := InterviewKey(id);
    if key in db && db[key].StoredInterview? then Some(db[key].interview) else None
  }

  /** getSurveyOffline */
  function ReadSurvey(db: Db, id: string): (r: Option<Survey>)
    ensures r.Some? ==> SurveyKey(id) in db && db[SurveyKey(id)] == StoredSurvey(r.value)
    ensures WellKeyed(db) ==> (r.Some? <==> SurveyKey(id) in db)
    ensures WellKeyed(db) && r.Some? ==> r.value.id == id
  {
    var key := SurveyKey(id);
    if key in db && db[key].StoredSurvey? then Some(db[key].survey) else None
  }

  /** The keys that getAllOfflineInterviews selects: those starting with "interviews". */
  ghost function InterviewKeys(db: Db): set<string> {
    set k | k in db && InterviewsTable <= k
  }

  /** In a well-keyed store the "interviews" prefix selects exactly the interview records. */
  lemma InterviewKeysHoldInterviews(db: Db)
    requires WellKeyed(db)
    ensures forall k :: k in InterviewKeys(db) <==> k in db && db[k].StoredInterview?
  {
    assert !(InterviewsTable <= PendingSyncKey) by {
      assert PendingSyncKey[0] != InterviewsTable[0];
    }
    forall k | k in db
      ensures InterviewsTable <= k <==> db[k].StoredInterview?
    {
      assert KeyFits(k, db[k]);
    }
  }

  // --------------------------------------------------------------- writes

  /** saveInterviewOffline: write the record, then add its id to the ledger if absent. */
  function SaveInterviewDb(db: Db, iv: Interview): (r: Db)
    ensures ReadInterview(r, iv.id) == Some(iv)
    ensures ReadPendingSync(r) == ReadPendingSync(db).(interviews := AppendIfAbsent(ReadPendingSync(db).interviews, iv.id))
    ensures forall k :: k != InterviewKey(iv.id) && k != PendingSyncKey ==> SameEntry(r, db, k)
  {
    var pending := ReadPendingSync(db);
    db[InterviewKey(iv.id) := StoredInterview(iv)]
      [PendingSyncKey := StoredPending(pending.(interviews := AppendIfAbsent(pending.interviews, iv.id)))]
  }

  /** markInterviewAsSynced: filter the id out of the ledger, then remove the record. */
  function MarkSyncedDb(db: Db, id: string): (r: Db)
    ensures ReadPendingSync(r) == ReadPendingSync(db).(interviews := Without(ReadPendingSync(db).interviews, id))
    ensures InterviewKey(id) !in r && ReadInterview(r, id) == None
    ensures forall k :: k != InterviewKey(id) && k != PendingSyncKey ==> SameEntry(r, db, k)
  {
    var pending := ReadPendingSync(db);
    db[PendingSyncKey := StoredPending(pending.(interviews := Without(pending.interviews, id)))]
      - {InterviewKey(id)}
  }

  /** saveSurveyOffline */
  function SaveSurveyDb(db: Db, s: Survey): (r: Db)
    ensures ReadSurvey(r, s.id) == Some(s)
    ensures ReadPendingSync(r) == ReadPendingSync(db)
    ensures forall k :: k != SurveyKey(s.id) ==> SameEntry(r, db, k)
  {
    db[SurveyKey(s.id) := StoredSurvey(s)]
  }

  /** The write after the sync loop: the ledger gets the time of this attempt. */
  function StampSyncAttempt(db: Db, now: string): (r: Db)
    ensures ReadPendingSync(r) == ReadPendingSync(db).(lastSyncAttempt := Some(now))
    ensures forall k :: k != PendingSyncKey ==> SameEntry(r, db, k)
  {
    db[PendingSyncKey := StoredPending(ReadPendingSync(db).(lastSyncAttempt := Some(now)))]
  }

  /** Saving the same interview twice leaves the store as one save does: no duplicate id. */
  lemma SaveInterviewIdempotent(db: Db, iv: Interview)
    ensures SaveInterviewDb(SaveInterviewDb(db, iv), iv) == SaveInterviewDb(db, iv)
  {
    var once := SaveInterviewDb(db, iv);
    var p := ReadPendingSync(once);
    assert iv.id in p.interviews;
    assert once[PendingSyncKey] == StoredPending(p);
    assert once[InterviewKey(iv.id)] == StoredInterview(iv);
  }

  /** Marking an interview synced a second time changes nothing. */
  lemma MarkSyncedIdempotent(db: Db, id: string)
    ensures MarkSyncedDb(MarkSyncedDb(db, id), id) == MarkSyncedDb(db, id)
  {
    var once := MarkSyncedDb(db, id);
    var p := ReadPendingSync(once);
    assert p.interviews == Without(ReadPendingSync(db).interviews, id);
    assert Without(p.interviews, id) == p.interviews;
    assert PendingSyncKey in once && once[PendingSyncKey] == StoredPending(p);
  }

  /** A save followed by mark-synced leaves no trace of the interview. */
  lemma SaveThenMarkSynced(db: Db, iv: Interview)
    ensures var r := MarkSyncedDb(SaveInterviewDb(db, iv), iv.id);
      ReadInterview(r, iv.id) == None && iv.id !in ReadPendingSync(r).interviews
      && (iv.id !in ReadPendingSync(db).interviews ==> ReadPendingSync(r).interviews == ReadPendingSync(db).interviews)
  {
    var p := ReadPendingSync(db).interviews;
    if iv.id !in p {
      WithoutAppended(p, iv.id);
    }
  }

  lemma {:induction false} WithoutAppended(s: seq<string>, x: string)
    requires x !in s
    ensures Without(s + [x], x) == s
  {
    if s == [] {
      assert [x][1..] == [];
    } else {
      assert (s + [x])[1..] == s[1..] + [x];
      WithoutAppended(s[1..], x);
    }
  }

  // ------------------------------------------------------ invariant lemmas

  lemma SaveInterviewInvariants(db: Db, iv: Interview)
    ensures ValidDb(db) ==> ValidDb(SaveInterviewDb(db, iv))
    ensures LedgerTracked(db) ==> LedgerTracked(SaveInterviewDb(db, iv))
  {
    var r := SaveInterviewDb(db, iv);
    if WellKeyed(db) {
      forall k | k in r ensures KeyFits(k, r[k]) {
        if k != InterviewKey(iv.id) && k != PendingSyncKey {
          assert SameEntry(r, db, k);
        }
      }
    }
    if LedgerTracked(db) {
      forall id | id in ReadPendingSync(r).interviews ensures ReadInterview(r, id).Some? {
        if id != iv.id {
          assert ReadInterview(db, id).Some?;
          assert SameEntry(r, db, InterviewKey(id));
        }
      }
    }
  }

  lemma MarkSyncedInvariants(db: Db, id: string)
    ensures ValidDb(db) ==> ValidDb(MarkSyncedDb(db, id))
    ensures LedgerTracked(db) ==> LedgerTracked(MarkSyncedDb(db, id))
  {
    var r := MarkSyncedDb(db, id);
    if WellKeyed(db) {
      forall k | k in r ensures KeyFits(k, r[k]) {
        if k != PendingSyncKey {
          assert SameEntry(r, db, k);
        }
      }
    }
    if ValidDb(db) {
      WithoutDistinct(ReadPendingSync(db).interviews, id);
    }
    if LedgerTracked(db) {
      forall y | y in ReadPendingSync(r).interviews ensures ReadInterview(r, y).Some? {
        assert y in multiset(Without(ReadPendingSync(db).interviews, id));
        assert y != id && y in ReadPendingSync(db).interviews;
        assert InterviewKey(y)[|InterviewsTable| + 1..] != InterviewKey(id)[|InterviewsTable| + 1..];
        assert ReadInterview(db, y).Some?;
        assert SameEntry(r, db, InterviewKey(y));
      }
    }
  }

  lemma SaveSurveyInvariants(db: Db, s: Survey)
    ensures ValidDb(db) ==> ValidDb(SaveSurveyDb(db, s))
    ensures LedgerTracked(db) ==> LedgerTracked(SaveSurveyDb(db, s))
  {
    var r := SaveSurveyDb(db, s);
    if WellKeyed(db) {
      forall k | k in r ensures KeyFits(k, r[k]) {
        if k != SurveyKey(s.id) {
          assert SameEntry(r, db, k);
        }
      }
    }
    if LedgerTracked(db) {
      forall id | id in ReadPendingSync(r).interviews ensures ReadInterview(r, id).Some? {
        assert ReadInterview(db, id).Some?;
        assert SameEntry(r, db, InterviewKey(id));
      }
    }
  }

  lemma StampSyncAttemptInvariants(db: Db, now: string)
    ensures ValidDb(db) ==> ValidDb(StampSyncAttempt(db, now))
    ensures LedgerTracked(db) ==> LedgerTracked(StampSyncAttempt(db, now))
  {
    var r := StampSyncAttempt(db, now);
    if WellKeyed(db) {
      forall k | k in r ensures KeyFits(k, r[k]) {
        if k != PendingSyncKey {
          assert SameEntry(r, db, k);
        }
      }
    }
    if LedgerTracked(db) {
      forall id | id in ReadPendingSync(r).interviews ensures ReadInterview(r, id).Some? {
        assert ReadInterview(db, id).Some?;
        assert SameEntry(r, db, InterviewKey(id));
      }
    }
  }

  /** Removing an interview record alone keeps the store valid; the ledger is not touched. */
  lemma DeleteRecordInvariants(db: Db, id: string)
    requires ValidDb(db)
    ensures ValidDb(db - {InterviewKey(id)})
    ensures ReadPendingSync(db - {InterviewKey(id)}) == ReadPendingSync(db)
  {
  }

  // -------------------------------------------------------------- the sync

  /** The upload of one pending id succeeds: its record is stored and the remote accepts it. */
  predicate Uploads(db: Db, id: string, accepts: Interview -> bool) {
    ReadInterview(db, id).Some? && accepts(ReadInterview(db, id).value)
  }

  /** The upload of one pending id fails: its record is stored and the remote refuses it. */
  predicate Refuses(db: Db, id: string, accepts: Interview -> bool) {
    ReadInterview(db, id).Some? && !accepts(ReadInterview(db, id).value)
  }

  /** The ids of `ids` whose upload succeeds, in order. */
  function Synced(db: Db, ids: seq<string>, accepts: Interview -> bool): (r: seq<string>)
    ensures forall x :: x in r <==> x in ids && Uploads(db, x, accepts)
  {
    if ids == [] then []
    else
      var last := ids[|ids| - 1];
      Synced(db, ids[..|ids| - 1], accepts) + (if Uploads(db, last, accepts) then [last] else [])
  }

  /** The ids of `ids` whose upload fails, in order. */
  function Refused(db: Db, ids: seq<string>, accepts: Interview -> bool): (r: seq<string>)
    ensures forall x :: x in r <==> x in ids && Refuses(db, x, accepts)
  {
    if ids == [] then []
    else
      var last := ids[|ids| - 1];
      Refused(db, ids[..|ids| - 1], accepts) + (if Refuses(db, last, accepts) then [last] else [])
  }

  /** Ids without a stored record count in neither list. */
  lemma {:induction false} SyncCounts(db: Db, ids: seq<string>, accepts: Interview -> bool)
    ensures |Synced(db, ids, accepts)| + |Refused(db, ids, accepts)| <= |ids|
    ensures (forall x :: x in ids ==> ReadInterview(db, x).Some?) ==>
              |Synced(db, ids, accepts)| + |Refused(db, ids, accepts)| == |ids|
  {
    if ids != [] {
      var init := ids[..|ids| - 1];
      assert forall x :: x in init ==> x in ids;
      SyncCounts(db, init, accepts);
    }
  }

  /** markInterviewAsSynced applied to each of `ids` in turn. */
  function MarkAllSynced(db: Db, ids: seq<string>): Db {
    if ids == [] then db
    else MarkSyncedDb(MarkAllSynced(db, ids[..|ids| - 1]), ids[|ids| - 1])
  }

  /** Marking any list of ids synced keeps the store valid. */
  lemma {:induction false} MarkAllSyncedValid(db: Db, ids: seq<string>)
    ensures ValidDb(db) ==> ValidDb(MarkAllSynced(db, ids))
  {
    if ids != [] {
      MarkAllSyncedValid(db, ids[..|ids| - 1]);
      MarkSyncedInvariants(MarkAllSynced(db, ids[..|ids| - 1]), ids[|ids| - 1]);
    }
  }

  lemma MarkAllSyncedSnoc(db: Db, ids: seq<string>, x: string)
    ensures MarkAllSynced(db, ids + [x]) == MarkSyncedDb(MarkAllSynced(db, ids), x)
  {
    assert (ids + [x])[..|ids|] == ids;
  }

  /** Marking a list of ids synced filters each of them out of the ledger in turn. */
  lemma {:induction false} MarkAllSyncedLedger(db: Db, ids: seq<string>)
    ensures ReadPendingSync(MarkAllSynced(db, ids)) ==
              ReadPendingSync(db).(interviews := WithoutAll(ReadPendingSync(db).interviews, ids))
  {
    if ids != [] {
      MarkAllSyncedLedger(db, ids[..|ids| - 1]);
    }
  }

  /** Marking a list of ids synced deletes exactly their records. */
  lemma {:induction false} MarkAllSyncedReads(db: Db, ids: seq<string>)
    ensures forall id :: ReadInterview(MarkAllSynced(db, ids), id) ==
              if id in ids then None else ReadInterview(db, id)
  {
    if ids != [] {
      var init := ids[..|ids| - 1];
      var last := ids[|ids| - 1];
      var prev := MarkAllSynced(db, init);
      var r := MarkAllSynced(db, ids);
      MarkAllSyncedReads(db, init);
      assert ids == init + [last];
      assert r == MarkSyncedDb(prev, last);
      forall id ensures ReadInterview(r, id) == if id == last then None else ReadInterview(prev, id) {
        if id != last {
          assert InterviewKey(id)[|InterviewsTable| + 1..] != InterviewKey(last)[|InterviewsTable| + 1..];
          assert SameEntry(r, prev, InterviewKey(id));
        }
      }
    }
  }

  /** Marking ids synced touches no key outside the ledger and the interview records. */
  lemma {:induction false} MarkAllSyncedFrame(db: Db, ids: seq<string>)
    ensures forall k :: k != PendingSyncKey && !(InterviewsTable <= k) ==> SameEntry(MarkAllSynced(db, ids), db, k)
  {
    if ids != [] {
      var init := ids[..|ids| - 1];
      var last := ids[|ids| - 1];
      var prev := MarkAllSynced(db, init);
      var r := MarkAllSynced(db, ids);
      MarkAllSyncedFrame(db, init);
      assert r == MarkSyncedDb(prev, last);
      forall k | k != PendingSyncKey && !(InterviewsTable <= k) ensures SameEntry(r, db, k) {
        assert SameEntry(r, prev, k);
        assert SameEntry(prev, db, k);
      }
    }
  }

  /** The state syncOfflineData leaves: every pending record the remote accepted
      is marked synced, then the attempt time is written. */
  function SyncOfflineDataDb(db: Db, accepts: Interview -> bool, now: string): (r: Db)
    ensures ValidDb(db) ==> ValidDb(r)
  {
    var marked := MarkAllSynced(db, Synced(db, ReadPendingSync(db).interviews, accepts));
    MarkAllSyncedValid(db, Synced(db, ReadPendingSync(db).interviews, accepts));
    StampSyncAttemptInvariants(marked, now);
    StampSyncAttempt(marked, now)
  }

  /** The outcome of syncOfflineData, record by record: accepted ones leave both
      the ledger and the store, all others stay exactly as they were; the attempt
      time is recorded; surveys are untouched. */
  lemma SyncOfflineDataOutcome(db: Db, accepts: Interview -> bool, now: string)
    ensures var r := SyncOfflineDataDb(db, accepts, now);
      && ReadPendingSync(r).lastSyncAttempt == Some(now)
      && (forall id :: id in ReadPendingSync(r).interviews <==>
            id in ReadPendingSync(db).interviews && !Uploads(db, id, accepts))
      && (forall id :: ReadInterview(r, id) ==
            if id in ReadPendingSync(db).interviews && Uploads(db, id, accepts) then None
            else ReadInterview(db, id))
      && (forall k :: k != PendingSyncKey && !(InterviewsTable <= k) ==> SameEntry(r, db, k))
  {
    var snapshot := ReadPendingSync(db).interviews;
    var synced := Synced(db, snapshot, accepts);
    var marked := MarkAllSynced(db, synced);
    var r := SyncOfflineDataDb(db, accepts, now);
    MarkAllSyncedLedger(db, synced);
    WithoutAllMembers(snapshot, synced);
    MarkAllSyncedReads(db, synced);
    MarkAllSyncedFrame(db, synced);
    assert r == StampSyncAttempt(marked, now);
    forall id ensures ReadInterview(r, id) == ReadInterview(marked, id) {
      assert SameEntry(r, marked, InterviewKey(id));
    }
    forall k | k != PendingSyncKey && !(InterviewsTable <= k) ensures SameEntry(r, db, k) {
      assert SameEntry(r, marked, k);
      assert SameEntry(marked, db, k);
    }
  }

  /** A sync keeps every remaining pending id backed by its record. */
  lemma SyncOfflineDataTracked(db: Db, accepts: Interview -> bool, now: string)
    requires LedgerTracked(db)
    ensures LedgerTracked(SyncOfflineDataDb(db, accepts, now))
  {
    SyncOfflineDataOutcome(db, accepts, now);
  }

  /** The counters of a sync: at most one per pending id, and exactly one each
      when every pending id has its record. */
  lemma SyncCountersBound(db: Db, accepts: Interview -> bool)
    ensures var snapshot := ReadPendingSync(db).interviews;
      |Synced(db, snapshot, accepts)| + |Refused(db, snapshot, accepts)| <= PendingSyncCount(db)
      && (LedgerTracked(db) ==>
            |Synced(db, snapshot, accepts)| + |Refused(db, snapshot, accepts)| == PendingSyncCount(db))
  {
    SyncCounts(db, ReadPendingSync(db).interviews, accepts);
  }

  /** One step of the sync loop over a snapshot without duplicates: the next
      id, not yet visited, still reads as before the loop; an accepted one is
      marked synced and counted as a success, a refused one is counted as a
      failure, and one without a record changes nothing. */
  lemma SyncLoopStep(db: Db, snapshot: seq<string>, i: nat, accepts: Interview -> bool)
    requires i < |snapshot| && NoDuplicates(snapshot)
    ensures var x := snapshot[i];
      var cur := MarkAllSynced(db, Synced(db, snapshot[..i], accepts));
      var next := MarkAllSynced(db, Synced(db, snapshot[..i + 1], accepts));
      && ReadInterview(cur, x) == ReadInterview(db, x)
      && (Uploads(db, x, accepts) ==> next == MarkSyncedDb(cur, x))
      && (!Uploads(db, x, accepts) ==> next == cur)
      && |Synced(db, snapshot[..i + 1], accepts)| == |Synced(db, snapshot[..i], accepts)| + (if Uploads(db, x, accepts) then 1 else 0)
      && |Refused(db, snapshot[..i + 1], accepts)| == |Refused(db, snapshot[..i], accepts)| + (if Refuses(db, x, accepts) then 1 else 0)
  {
    var x := snapshot[i];
    var visited := snapshot[..i];
    assert snapshot[..i + 1] == visited + [x];
    assert x !in visited;
    var done := Synced(db, visited, accepts);
    SyncedSnoc(db, visited, x, accepts);
    assert x !in done;
    MarkAllSyncedReads(db, done);
    if Uploads(db, x, accepts) {
      MarkAllSyncedSnoc(db, done, x);
    } else {
      assert done + [] == done;
    }
  }

  lemma SyncedSnoc(db: Db, ids: seq<string>, x: string, accepts: Interview -> bool)
    ensures Synced(db, ids + [x], accepts) == Synced(db, ids, accepts) + (if Uploads(db, x, accepts) then [x] else [])
    ensures Refused(db, ids + [x], accepts) == Refused(db, ids, accepts) + (if Refuses(db, x, accepts) then [x] else [])
  {
    assert (ids + [x])[..|ids|] == ids;
  }

  /** Three pending interviews in a valid store (so three distinct ids), the
      second refused by the remote: two successes, one failure, and only the
      second stays pending and stored. */
  lemma PartialFailureExample(db: Db, x: string, y: string, z: string, accepts: Interview -> bool, now: string)
    requires ValidDb(db) && ReadPendingSync(db).interviews == [x, y, z]
    requires Uploads(db, x, accepts) && Refuses(db, y, accepts) && Uploads(db, z, accepts)
    ensures |Synced(db, [x, y, z], accepts)| == 2 && |Refused(db, [x, y, z], accepts)| == 1
    ensures var r := SyncOfflineDataDb(db, accepts, now);
      && (forall id :: id in ReadPendingSync(r).interviews <==> id == y)
      && ReadInterview(r, y) == ReadInterview(db, y)
      && ReadInterview(r, x) == None && ReadInterview(r, z) == None
  {
    SyncedSnoc(db, [], x, accepts);
    assert [] + [x] == [x];
    SyncedSnoc(db, [x], y, accepts);
    assert [x] + [y] == [x, y];
    SyncedSnoc(db, [x, y], z, accepts);
    assert [x, y] + [z] == [x, y, z];
    SyncOfflineDataOutcome(db, accepts, now);
  }

  // ------------------------------------------------------------- the store

  /** The device store, updated in place through setItem/removeItem/clear. */
  class OfflineStore {
    var items: Db

    ghost predicate Valid()
      reads this
    {
      ValidDb(items)
    }

    constructor ()
      ensures Valid() && items == map[]
    {
      items := map[];
    }

    /** saveInterviewOffline */
    method SaveInterviewOffline(iv: Interview)
      requires Valid()
      modifies this
      ensures Valid()
      ensures items == SaveInterviewDb(old(items), iv)
    {
      SaveInterviewInvariants(items, iv);
      ghost var expected := SaveInterviewDb(items, iv);
      items := items[InterviewKey(iv.id) := StoredInterview(iv)];
      var pendingSync := ReadPendingSync(items);
      if iv.id !in pendingSync.interviews {
        pendingSync := pendingSync.(interviews := pendingSync.interviews + [iv.id]);
        items := items[PendingSyncKey := StoredPending(pendingSync)];
      } else {
        assert items[PendingSyncKey] == StoredPending(pendingSync);
      }
      assert items == expected;
    }

    /** saveSurveyOffline */
    method SaveSurveyOffline(s: Survey)
      requires Valid()
      modifies this
      ensures Valid()
      ensures items == SaveSurveyDb(old(items), s)
    {
      SaveSurveyInvariants(items, s);
      items := items[SurveyKey(s.id) := StoredSurvey(s)];
    }

    /** markInterviewAsSynced */
    method MarkInterviewAsSynced(id: string)
      requires Valid()
      modifies this
      ensures Valid()
      ensures items == MarkSyncedDb(old(items), id)
    {
      MarkSyncedInvariants(items, id);
      var pendingSync := ReadPendingSync(items);
      pendingSync := pendingSync.(interviews := Without(pendingSync.interviews, id));
      items := items[PendingSyncKey := StoredPending(pendingSync)];
      items := items - {InterviewKey(id)};
    }

    /** The deleteInterview that sync-service.ts calls: removes the record only. */
    method DeleteInterview(id: string)
      requires Valid()
      modifies this
      ensures Valid()
      ensures items == old(items) - {InterviewKey(id)}
    {
      DeleteRecordInvariants(items, id);
      items := items - {InterviewKey(id)};
    }

    /** clearOfflineStorage */
    method ClearOfflineStorage()
      requires Valid()
      modifies this
      ensures Valid()
      ensures items == map[] && PendingSyncCount(items) == 0
    {
      items := map[];
    }

    /** getAllOfflineInterviews: every record whose key starts with "interviews",
        in the (unspecified) order in which the store lists its keys. */
    method GetAllOfflineInterviews() returns (interviews: seq<Interview>)
      requires Valid()
      ensures forall k :: k in items && InterviewsTable <= k ==>
                items[k].StoredInterview? && items[k].interview in interviews
      ensures forall i :: 0 <= i < |interviews| ==>
                ReadInterview(items, interviews[i].id) == Some(interviews[i])
      ensures forall i, j :: 0 <= i < j < |interviews| ==> interviews[i].id != interviews[j].id
    {
      InterviewKeysHoldInterviews(items);
      interviews := [];
      var keys := items.Keys;
      while keys != {}
        invariant keys <= items.Keys
        invariant forall k :: k in items && InterviewsTable <= k && k !in keys ==>
                    items[k].interview in interviews
        invariant forall i :: 0 <= i < |interviews| ==>
                    InterviewKey(interviews[i].id) !in keys
                    && ReadInterview(items, interviews[i].id) == Some(interviews[i])
        invariant forall i, j :: 0 <= i < j < |interviews| ==> interviews[i].id != interviews[j].id
        decreases keys
      {
        var key :| key in keys;
        keys := keys - {key};
        if InterviewsTable <= key {
          var interview := items[key].interview;
          assert KeyFits(key, items[key]);
          interviews := interviews + [interview];
        }
      }
    }

    /** syncOfflineData: upload every interview of a snapshot of the ledger; an
        accepted one is marked synced, a refused one stays pending; then the
        attempt time is recorded. `accepts` stands for the remote upsert. */
    method SyncOfflineData(accepts: Interview -> bool, now: string) returns (success: nat, failed: nat)
      requires Valid()
      modifies this
      ensures Valid()
      ensures items == SyncOfflineDataDb(old(items), accepts, now)
      ensures success == |Synced(old(items), ReadPendingSync(old(items)).interviews, accepts)|
      ensures failed == |Refused(old(items), ReadPendingSync(old(items)).interviews, accepts)|
    {
      ghost var start := items;
      success, failed := 0, 0;
      var pendingSync := ReadPendingSync(items);
      var snapshot := pendingSync.interviews;
      for i := 0 to |snapshot|
        invariant Valid()
        invariant NoDuplicates(snapshot)
        invariant items == MarkAllSynced(start, Synced(start, snapshot[..i], accepts))
        invariant success == |Synced(start, snapshot[..i], accepts)|
        invariant failed == |Refused(start, snapshot[..i], accepts)|
      {
        var interviewId := snapshot[i];
        SyncLoopStep(start, snapshot, i, accepts);
        var interview := ReadInterview(items, interviewId);
        if interview.Some? {
          if accepts(interview.value) {
            MarkInterviewAsSynced(interviewId);
            success := success + 1;
          } else {
            failed := failed + 1;
          }
        }
      }
      assert snapshot[..|snapshot|] == snapshot;
      StampSyncAttemptInvariants(items, now);
      var updatedPendingSync := ReadPendingSync(items);
      updatedPendingSync := updatedPendingSync.(lastSyncAttempt := Some(now));
      items := items[PendingSyncKey := StoredPending(updatedPendingSync)];
    }
  }
}
