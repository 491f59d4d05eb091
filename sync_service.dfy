/** The upload sweep of src/lib/sync-service.ts: every completed interview in
    the device store is inserted into the remote `interviews` table, and the
    ones the remote accepts are deleted locally. */
module SyncService {
  import opened Types
  import opened Seqs
  import opened OfflineStorage

  /** The row uploadInterview inserts into the `interviews` table. */
  datatype InterviewRow = InterviewRow(
    id: string,
    surveyId: string,
    answers: seq<InterviewAnswer>,
    latitude: Option<real>,
    longitude: Option<real>,
    accuracy: Option<real>,
    status: InterviewStatus,
    isOffline: bool,
    offlineSynced: bool,
    createdAt: string)

  /** The row mapping of uploadInterview. `toIso` stands for
      `new Date(timestamp).toISOString()`. */
  function ToRow(iv: Interview, toIso: string -> string): (row: InterviewRow)
    ensures row.id == iv.id && row.surveyId == iv.surveyId && row.answers == iv.answers
    ensures row.latitude == iv.latitude && row.longitude == iv.longitude && row.accuracy == iv.accuracy
    ensures row.status == Submitted && row.isOffline && row.offlineSynced
    ensures row.createdAt == toIso(iv.createdAt)
  {
    InterviewRow(iv.id, iv.surveyId, iv.answers, iv.latitude, iv.longitude, iv.accuracy,
                 Submitted, true, true, toIso(iv.createdAt))
  }

  /** Two interviews that differ in what the row carries give different rows:
      the upload loses nothing of the answers, the place or the identity. */
  lemma ToRowInjective(a: Interview, b: Interview, toIso: string -> string)
    requires ToRow(a, toIso) == ToRow(b, toIso)
    ensures a.id == b.id && a.surveyId == b.surveyId && a.answers == b.answers
    ensures a.latitude == b.latitude && a.longitude == b.longitude && a.accuracy == b.accuracy
  {
    assert ToRow(a, toIso).id == a.id && ToRow(b, toIso).id == b.id;
  }

  /** The remote accepts the row of an interview. */
  function AcceptsRow(upload: InterviewRow -> bool, toIso: string -> string): Interview -> bool {
    c => upload(ToRow(c, toIso))
  }

  /** The `status === 'completed'` filter. */
  function CompletedOnly(ivs: seq<Interview>): (r: seq<Interview>)
    ensures forall iv :: iv in r <==> iv in ivs && iv.status == Completed
    ensures |r| <= |ivs|
  {
    Filter(ivs, IsCompleted)
  }

  predicate DistinctIds(ivs: seq<Interview>) {
    forall i, j :: 0 <= i < j < |ivs| ==> ivs[i].id != ivs[j].id
  }

  /** The store keys of a list of interviews. */
  ghost function KeySet(ivs: seq<Interview>): set<string> {
    set iv | iv in ivs :: InterviewKey(iv.id)
  }

  lemma {:induction false} FilterDistinctIds(ivs: seq<Interview>, p: Interview -> bool)
    requires DistinctIds(ivs)
    ensures DistinctIds(Filter(ivs, p))
  {
    if ivs != [] {
      var init := ivs[..|ivs| - 1];
      var last := ivs[|ivs| - 1];
      assert ivs == init + [last];
      FilterDistinctIds(init, p);
      FilterSnoc(init, last, p);
      var r := Filter(init, p);
      forall i | 0 <= i < |r| ensures r[i].id != last.id {
        assert r[i] in init;
      }
    }
  }

  /** With distinct ids, a list has as many keys as elements. */
  lemma {:induction false} KeySetCardinality(ivs: seq<Interview>)
    requires DistinctIds(ivs)
    ensures |KeySet(ivs)| == |ivs|
  {
    if ivs != [] {
      var init := ivs[..|ivs| - 1];
      var last := ivs[|ivs| - 1];
      assert ivs == init + [last];
      KeySetCardinality(init);
      assert KeySet(ivs) == KeySet(init) + {InterviewKey(last.id)};
      assert InterviewKey(last.id) !in KeySet(init) by {
        forall iv | iv in init ensures InterviewKey(iv.id) != InterviewKey(last.id) {
          assert InterviewKey(iv.id)[|InterviewsTable| + 1..] == iv.id;
        }
      }
    }
  }

  /** The keys of completed interview records in a store. */
  ghost function CompletedKeys(db: Db): set<string> {
    set k | k in db && db[k].StoredInterview? && IsCompleted(db[k].interview)
  }

  /** The keys of completed interview records whose row the remote accepts. */
  ghost function UploadedKeys(db: Db, upload: InterviewRow -> bool, toIso: string -> string): set<string> {
    set k | k in CompletedKeys(db) && upload(ToRow(db[k].interview, toIso))
  }

  /** What the sweep leaves: the store without the accepted records. */
  ghost function SweepDb(db: Db, upload: InterviewRow -> bool, toIso: string -> string): Db {
    db - UploadedKeys(db, upload, toIso)
  }

  /** Only interview records go, and only completed accepted ones; everything
      else, the ledger included, stays as it was. */
  lemma SweepKeepsOthers(db: Db, upload: InterviewRow -> bool, toIso: string -> string)
    requires ValidDb(db)
    ensures var r := SweepDb(db, upload, toIso);
      && ValidDb(r)
      && ReadPendingSync(r) == ReadPendingSync(db)
      && (forall k :: k in db && !(db[k].StoredInterview? && IsCompleted(db[k].interview)) ==> k in r && r[k] == db[k])
      && (forall k :: k in db && db[k].StoredInterview? && !upload(ToRow(db[k].interview, toIso)) ==> k in r && r[k] == db[k])
      && (forall k :: k in r ==> k in db && r[k] == db[k])
      && (forall id :: ReadSurvey(r, id) == ReadSurvey(db, id))
  {
    var r := SweepDb(db, upload, toIso);
    assert PendingSyncKey !in UploadedKeys(db, upload, toIso);
    forall id ensures ReadSurvey(r, id) == ReadSurvey(db, id) {
      assert SurveyKey(id) !in UploadedKeys(db, upload, toIso);
    }
  }

  /** A pending id whose record the sweep deleted stays in the ledger, and a
      later syncOfflineData counts it in neither counter. */
  lemma SweepLeavesStalePending(db: Db, id: string, upload: InterviewRow -> bool, toIso: string -> string,
                                accepts: Interview -> bool)
    requires ValidDb(db) && id in ReadPendingSync(db).interviews
    requires InterviewKey(id) in UploadedKeys(db, upload, toIso)
    ensures var r := SweepDb(db, upload, toIso);
      && id in ReadPendingSync(r).interviews
      && ReadInterview(r, id) == None
      && !Uploads(r, id, accepts) && !Refuses(r, id, accepts)
      && !LedgerTracked(r)
  {
    SweepKeepsOthers(db, upload, toIso);
  }

  /** The stored interview records are exactly the interviews of a list
      (in some order): then the completed filter picks the completed keys. */
  lemma ListedKeys(db: Db, all: seq<Interview>, upload: InterviewRow -> bool, toIso: string -> string)
    requires ValidDb(db)
    requires forall k :: k in db && InterviewsTable <= k ==> db[k].StoredInterview? && db[k].interview in all
    requires forall i :: 0 <= i < |all| ==> ReadInterview(db, all[i].id) == Some(all[i])
    ensures KeySet(CompletedOnly(all)) == CompletedKeys(db)
    ensures KeySet(Filter(CompletedOnly(all), AcceptsRow(upload, toIso))) == UploadedKeys(db, upload, toIso)
  {
    var completed := CompletedOnly(all);
    var accepted := Filter(completed, AcceptsRow(upload, toIso));
    forall iv | iv in all ensures ReadInterview(db, iv.id) == Some(iv) {
      var i :| 0 <= i < |all| && all[i] == iv;
    }
    forall k | k in CompletedKeys(db) ensures k in KeySet(completed) && InterviewKey(db[k].interview.id) == k {
      assert KeyFits(k, db[k]);
      assert db[k].interview in completed;
    }
    forall k | k in UploadedKeys(db, upload, toIso) ensures k in KeySet(accepted) {
      assert KeyFits(k, db[k]);
      assert db[k].interview in accepted;
    }
  }

  /** One step of the upload loop: an accepted interview is one more success
      and one more deleted key; a refused one changes neither. */
  lemma SweepStep(db: Db, cs: seq<Interview>, i: nat, accepts: Interview -> bool)
    requires i < |cs|
    ensures var before := Filter(cs[..i], accepts);
      var after := Filter(cs[..i + 1], accepts);
      && (accepts(cs[i]) ==>
            |after| == |before| + 1 && db - KeySet(after) == (db - KeySet(before)) - {InterviewKey(cs[i].id)})
      && (!accepts(cs[i]) ==> after == before)
  {
    var before := Filter(cs[..i], accepts);
    assert cs[..i + 1] == cs[..i] + [cs[i]];
    FilterSnoc(cs[..i], cs[i], accepts);
    if accepts(cs[i]) {
      assert KeySet(before + [cs[i]]) == KeySet(before) + {InterviewKey(cs[i].id)};
    } else {
      assert before + [] == before;
    }
  }

  /** After the loop: the deleted keys are the uploaded keys, and the counters
      are the numbers of uploaded and of completed records. */
  lemma SweepTotals(db: Db, all: seq<Interview>, upload: InterviewRow -> bool, toIso: string -> string)
    requires ValidDb(db) && DistinctIds(all)
    requires forall k :: k in db && InterviewsTable <= k ==> db[k].StoredInterview? && db[k].interview in all
    requires forall i :: 0 <= i < |all| ==> ReadInterview(db, all[i].id) == Some(all[i])
    ensures var accepted := Filter(CompletedOnly(all), AcceptsRow(upload, toIso));
      && db - KeySet(accepted) == SweepDb(db, upload, toIso)
      && |accepted| == |UploadedKeys(db, upload, toIso)|
      && |CompletedOnly(all)| == |CompletedKeys(db)|
  {
    var completed := CompletedOnly(all);
    FilterDistinctIds(all, IsCompleted);
    FilterDistinctIds(completed, AcceptsRow(upload, toIso));
    ListedKeys(db, all, upload, toIso);
    KeySetCardinality(completed);
    KeySetCardinality(Filter(completed, AcceptsRow(upload, toIso)));
  }

  /** syncPendingInterviews: upload every completed interview; on success
      delete it locally and count a success, otherwise count a failure and go
      on. `upload` stands for the remote insert (true when it reports no
      error). */
  method SyncPendingInterviews(store: OfflineStore, upload: InterviewRow -> bool, toIso: string -> string)
    returns (success: nat, failed: nat)
    requires store.Valid()
    modifies store
    ensures store.Valid()
    ensures store.items == SweepDb(old(store.items), upload, toIso)
    ensures success == |UploadedKeys(old(store.items), upload, toIso)|
    ensures success + failed == |CompletedKeys(old(store.items))|
  {
    ghost var start := store.items;
    var pendingInterviews := store.GetAllOfflineInterviews();
    var completedInterviews := CompletedOnly(pendingInterviews);
    ghost var accepts := AcceptsRow(upload, toIso);
    success, failed := 0, 0;
    for i := 0 to |completedInterviews|
      invariant store.Valid()
      invariant store.items == start - KeySet(Filter(completedInterviews[..i], accepts))
      invariant success == |Filter(completedInterviews[..i], accepts)|
      invariant success + failed == i
    {
      var interview := completedInterviews[i];
      SweepStep(start, completedInterviews, i, accepts);
      var row := ToRow(interview, toIso);
      var ok := upload(row);
      if ok {
        store.DeleteInterview(interview.id);
        success := success + 1;
      } else {
        failed := failed + 1;
      }
    }
    assert completedInterviews[..|completedInterviews|] == completedInterviews;
    SweepTotals(start, pendingInterviews, upload, toIso);
  }
}
