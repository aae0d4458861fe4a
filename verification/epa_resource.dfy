/** The /epa resource: the per-patient synchronisation and consent state
    machine over the six EPA fields of a stored patient, the bulk
    synchronisation of consenting active patients, the status view and the
    statistics. The EPA system is reached through the transport functions
    of the service; now is the clock reading of the request. */
module EpaRoutes {
  import opened Wrappers
  import opened Text
  import opened Calendar
  import opened PatientEntity
  import opened Persistence
  import opened Replies
  import opened EpaService

  /** Boolean.TRUE.equals(epaEnabled): only an explicit true counts as consent. */
  predicate Consenting(p: Patient) {
    p.epaEnabled == Some(true)
  }

  /** The entity after a sync: on success the EPA id, "synced", the sync time
      and no error; on failure "error" and the message, with the EPA id and
      the last sync time left alone. */
  function AfterSync(p: Patient, result: EpaResponse, now: LocalDateTime): (q: Patient)
    ensures result.success ==> q.epaId == result.epaId && q.epaSyncStatus == Some("synced")
                               && q.epaLastSync == Some(now) && q.epaSyncError.None?
    ensures !result.success ==> q.epaId == p.epaId && q.epaSyncStatus == Some("error")
                                && q.epaLastSync == p.epaLastSync && q.epaSyncError == Some(result.message)
    ensures forall f :: f !in {EpaId, EpaSyncStatus, EpaLastSync, EpaSyncError} ==> Get(q, f) == Get(p, f)
  {
    if result.success then
      p.(epaId := result.epaId, epaSyncStatus := Some("synced"), epaLastSync := Some(now), epaSyncError := None)
    else
      p.(epaSyncStatus := Some("error"), epaSyncError := Some(result.message))
  }

  /** syncPatientToEPA: 404 for an unknown id and 403 without consent, both
      before the EPA is contacted; otherwise the stored patient is sent and
      the outcome written back. 200 on success, 500 on failure, and 500 with
      nothing written when the flush fails. */
  function SyncPatient(s: Store, id: int, now: LocalDateTime, base: string, post: Upload, fault: Option<string>): (out: (Store, Reply))
    ensures id !in s ==> out == (s, Reply(404, Error(NotFoundMessage)))
    ensures id in s && !Consenting(s[id]) ==> out == (s, Reply(403, Error(NoConsentMessage)))
    ensures out.1.code == 200 <==>
      id in s && Consenting(s[id]) && SendPatient(s[id], base, post, fault).success
      && Flush(s, id, s[id], AfterSync(s[id], SendPatient(s[id], base, post, fault), now), now).Some?
    ensures out.1.code == 200 ==> out.1.body == Synced(SentMessage, JavaText(SendPatient(s[id], base, post, fault).epaId))
    ensures id in s && Consenting(s[id]) && !SendPatient(s[id], base, post, fault).success
            && Flush(s, id, s[id], AfterSync(s[id], SendPatient(s[id], base, post, fault), now), now).Some?
            ==> out.1 == Reply(500, SyncFailed(SendPatient(s[id], base, post, fault).message))
    ensures id in s && Consenting(s[id])
            && Flush(s, id, s[id], AfterSync(s[id], SendPatient(s[id], base, post, fault), now), now).None?
            ==> out == (s, Reply(500, Failed))
    ensures id in s && Consenting(s[id])
            && Flush(s, id, s[id], AfterSync(s[id], SendPatient(s[id], base, post, fault), now), now).Some?
            ==> out.0 == Flush(s, id, s[id], AfterSync(s[id], SendPatient(s[id], base, post, fault), now), now).value
    ensures out.1.code != 200 && out.0 != s ==> out.1.body.SyncFailed?
    ensures out.0.Keys == s.Keys
    ensures forall k :: k in s && k != id ==> out.0[k] == s[k]
  {
    if id !in s then (s, Reply(404, Error(NotFoundMessage)))
    else if !Consenting(s[id]) then (s, Reply(403, Error(NoConsentMessage)))
    else
      var p := s[id];
      var result := SendPatient(p, base, post, fault);
      match Flush(s, id, p, AfterSync(p, result, now), now)
      case None => (s, Reply(500, Failed))
      case Some(t) =>
        if result.success then (t, Reply(200, Synced(result.message, JavaText(result.epaId))))
        else (t, Reply(500, SyncFailed(result.message)))
  }

  /** A successful sync leaves the row synced with the id the EPA returned,
      and every field outside the four sync fields as it was, updatedAt aside. */
  lemma SyncSuccessState(s: Store, id: int, now: LocalDateTime, base: string, post: Upload, fault: Option<string>)
    requires SyncPatient(s, id, now, base, post, fault).1.code == 200
    ensures var row := SyncPatient(s, id, now, base, post, fault).0[id];
      && row.epaSyncStatus == Some("synced")
      && row.epaId == Some(post(base + "/Patient", Fhir.PatientToFhir(s[id])).body)
      && row.epaLastSync == Some(now) && row.epaSyncError.None?
      && forall f :: f !in {EpaId, EpaSyncStatus, EpaLastSync, EpaSyncError, UpdatedAt} ==> Get(row, f) == Get(s[id], f)
  {
    var p := s[id];
    var result := SendPatient(p, base, post, fault);
    var after := AfterSync(p, result, now);
    var row := SyncPatient(s, id, now, base, post, fault).0[id];
    assert row == if after == p then p else OnUpdate(after, now);
  }

  /** A failed send whose record can be stored records the error, keeps the
      EPA id and last sync time, and leaves every other field as it was,
      updatedAt aside. */
  lemma SyncFailureState(s: Store, id: int, now: LocalDateTime, base: string, post: Upload, fault: Option<string>)
    requires id in s && Consenting(s[id]) && !SendPatient(s[id], base, post, fault).success
    requires Flush(s, id, s[id], AfterSync(s[id], SendPatient(s[id], base, post, fault), now), now).Some?
    ensures var row := SyncPatient(s, id, now, base, post, fault).0[id];
      && row.epaSyncStatus == Some("error")
      && row.epaSyncError == Some(SendPatient(s[id], base, post, fault).message)
      && row.epaId == s[id].epaId && row.epaLastSync == s[id].epaLastSync
      && forall f :: f !in {EpaSyncStatus, EpaSyncError, UpdatedAt} ==> Get(row, f) == Get(s[id], f)
  {
    var p := s[id];
    var result := SendPatient(p, base, post, fault);
    var after := AfterSync(p, result, now);
    var row := SyncPatient(s, id, now, base, post, fault).0[id];
    assert row == if after == p then p else OnUpdate(after, now);
  }

  /** A sync keeps the table valid: the row keeps its id, and a new EPA id
      that another row already holds makes the flush fail. */
  lemma SyncKeepsValid(s: Store, id: int, now: LocalDateTime, base: string, post: Upload, fault: Option<string>)
    requires Valid(s)
    ensures Valid(SyncPatient(s, id, now, base, post, fault).0)
  {
    if id in s && Consenting(s[id]) {
      var p := s[id];
      var after := AfterSync(p, SendPatient(p, base, post, fault), now);
      assert Get(after, Id) == Get(p, Id);
      if Flush(s, id, p, after, now).Some? {
        FlushKeepsValid(s, id, after, now);
      }
    }
  }

  /** The entity after a consent change. */
  function AfterConsent(p: Patient, enabled: bool, now: LocalDateTime): (q: Patient)
    ensures q.epaEnabled == Some(enabled)
    ensures q.epaSyncStatus == Some(if enabled then "pending" else "disabled")
    ensures q.epaConsentDate == if enabled then Some(now) else p.epaConsentDate
    ensures forall f :: f !in {EpaEnabled, EpaSyncStatus, EpaConsentDate} ==> Get(q, f) == Get(p, f)
  {
    if enabled then p.(epaEnabled := Some(true), epaConsentDate := Some(now), epaSyncStatus := Some("pending"))
    else p.(epaEnabled := Some(false), epaSyncStatus := Some("disabled"))
  }

  /** setEPAConsent: 404 for an unknown id; otherwise the consent fields are
      rewritten and flushed, 200 with the matching message, or 500 and no
      change when the flush fails. A missing query parameter arrives as false. */
  function SetConsent(s: Store, id: int, enabled: bool, now: LocalDateTime): (out: (Store, Reply))
    ensures id !in s ==> out == (s, Reply(404, Error(NotFoundMessage)))
    ensures out.1.code == 200 ==>
      out.1.body == ConsentChanged(if enabled then ConsentGivenMessage else ConsentWithdrawnMessage)
    ensures out.1.code == 200 <==> id in s && Flush(s, id, s[id], AfterConsent(s[id], enabled, now), now).Some?
    ensures out.1.code != 200 ==> out.0 == s
    ensures out.0.Keys == s.Keys
    ensures forall k :: k in s && k != id ==> out.0[k] == s[k]
  {
    if id !in s then (s, Reply(404, Error(NotFoundMessage)))
    else
      match Flush(s, id, s[id], AfterConsent(s[id], enabled, now), now)
      case None => (s, Reply(500, Failed))
      case Some(t) => (t, Reply(200, ConsentChanged(if enabled then ConsentGivenMessage else ConsentWithdrawnMessage)))
  }

  /** Consent changes never touch the EPA id, last sync time or sync error. */
  lemma ConsentKeepsSyncRecord(s: Store, id: int, enabled: bool, now: LocalDateTime)
    requires SetConsent(s, id, enabled, now).1.code == 200
    ensures var row := SetConsent(s, id, enabled, now).0[id];
      && row.epaEnabled == Some(enabled)
      && row.epaSyncStatus == Some(if enabled then "pending" else "disabled")
      && row.epaId == s[id].epaId && row.epaLastSync == s[id].epaLastSync && row.epaSyncError == s[id].epaSyncError
      && (enabled ==> row.epaConsentDate == Some(now))
      && (!enabled ==> row.epaConsentDate == s[id].epaConsentDate)
  {
    var after := AfterConsent(s[id], enabled, now);
    var row := SetConsent(s, id, enabled, now).0[id];
    assert row == if after == s[id] then s[id] else OnUpdate(after, now);
  }

  lemma ConsentKeepsValid(s: Store, id: int, enabled: bool, now: LocalDateTime)
    requires Valid(s)
    ensures Valid(SetConsent(s, id, enabled, now).0)
  {
    if id in s {
      var after := AfterConsent(s[id], enabled, now);
      assert Get(after, Id) == Get(s[id], Id);
      if Flush(s, id, s[id], after, now).Some? {
        FlushKeepsValid(s, id, after, now);
      }
    }
  }

  /** A patient the sync endpoint will send right after consent is granted. */
  lemma ConsentThenSync(s: Store, id: int, now: LocalDateTime, later: LocalDateTime, base: string, post: Upload, fault: Option<string>)
    requires SetConsent(s, id, true, now).1.code == 200
    ensures var t := SetConsent(s, id, true, now).0;
      id in t && Consenting(t[id]) && SyncPatient(t, id, later, base, post, fault).1.code != 403
  {
    ConsentKeepsSyncRecord(s, id, true, now);
  }

  /** The patients of the bulk sync: the consenting ones among the active
      list, in list order. */
  function KeepConsenting(ps: seq<Patient>): (r: seq<Patient>)
    ensures forall p :: p in r <==> p in ps && Consenting(p)
    ensures forall p :: multiset(r)[p] == if Consenting(p) then multiset(ps)[p] else 0
    ensures Sorted(ps) ==> Sorted(r)
    ensures |r| <= |ps|
  {
    assert |ps| > 0 ==> ps == [ps[0]] + ps[1..];
    if |ps| == 0 then []
    else
      var rest := KeepConsenting(ps[1..]);
      if Consenting(ps[0]) then
        KeepFront(ps, rest);
        [ps[0]] + rest
      else rest
  }

  lemma KeepFront(ps: seq<Patient>, rest: seq<Patient>)
    requires |ps| > 0
    requires forall p :: p in rest ==> p in ps[1..]
    requires Sorted(ps) ==> Sorted(rest)
    ensures Sorted(ps) ==> Sorted([ps[0]] + rest)
  {
    if Sorted(ps) {
      var r := [ps[0]] + rest;
      forall i, j | 0 <= i < j < |r|
        ensures ByLastName(r[i], r[j])
      {
        if i == 0 {
          assert r[j] in ps[1..];
          var m :| 0 <= m < |ps[1..]| && ps[1..][m] == r[j];
          assert ps[m + 1] == r[j];
        } else {
          assert r[i] == rest[i - 1] && r[j] == rest[j - 1];
        }
      }
    }
  }

  /** Keeping the consenting rows of the active rows keeps, key for key,
      the rows that are both active and consenting. */
  lemma ActiveConsenting(s: Store, active: seq<Patient>, kept: seq<Patient>)
    requires multiset(active) == Rows(s, Matching(s, (p: Patient) => p.status == Some("active")))
    requires forall p :: multiset(kept)[p] == if Consenting(p) then multiset(active)[p] else 0
    ensures multiset(kept) == Rows(s, Matching(s, (p: Patient) => p.status == Some("active") && Consenting(p)))
  {
    var isActive := Matching(s, (p: Patient) => p.status == Some("active"));
    var both := Matching(s, (p: Patient) => p.status == Some("active") && Consenting(p));
    assert Filtered(s, isActive, Consenting) == both;
    forall p
      ensures multiset(kept)[p] == Rows(s, both)[p]
    {
      RowsFilter(s, isActive, Consenting, p);
    }
  }

  /** syncAllPatientsToEPA: the active patients ordered by last name, those
      with consent kept, and each of them sent once. Nothing is written back
      to any patient; the reply only carries the counts. */
  method SyncAllPatients(s: Store, base: string, post: Upload, fault: Option<string>)
    returns (r: Reply, attempted: seq<Patient>)
    ensures Sorted(attempted)
    ensures forall p :: p in attempted <==>
      exists k :: k in s && s[k] == p && p.status == Some("active") && Consenting(p)
    ensures multiset(attempted) == Rows(s, Matching(s, (p: Patient) => p.status == Some("active") && Consenting(p)))
    ensures |attempted| == |Matching(s, (p: Patient) => p.status == Some("active") && Consenting(p))|
    ensures |attempted| == 0 ==> r == Reply(200, Message(NoneToSyncMessage))
    ensures |attempted| > 0 ==>
      && r.code == 200 && r.body.SyncCounts?
      && r.body.total == |attempted|
      && r.body.success + r.body.failed == r.body.total
      && r.body.success == |Positions(attempted, base, post, fault, true)|
      && r.body.failed == |Positions(attempted, base, post, fault, false)|
  {
    var active := OrderedQuery(s, (p: Patient) => p.status == Some("active"));
    attempted := KeepConsenting(active);
    ActiveConsenting(s, active, attempted);
    if |attempted| == 0 {
      r := Reply(200, Message(NoneToSyncMessage));
    } else {
      var result := SyncAll(attempted, base, post, fault);
      r := Reply(200, SyncCounts(result.successCount, result.failedCount, |attempted|));
    }
  }

  /** getEPAStatus's rendering of the EPA fields: %b of a null flag prints
      false, a null sync status prints "null", and a null EPA id, last sync
      or error prints as the empty string. */
  function View(p: Patient): (v: StatusView)
    ensures v.epaEnabled <==> Consenting(p)
    ensures v.epaId == p.epaId.GetOr("")
    ensures v.syncStatus == JavaText(p.epaSyncStatus)
    ensures p.epaLastSync.None? <==> v.lastSync == ""
    ensures p.epaLastSync.Some? ==> v.lastSync == DateTimeText(p.epaLastSync.value)
    ensures v.syncError == p.epaSyncError.GetOr("")
  {
    StatusView(p.epaEnabled == Some(true), p.epaId.GetOr(""), JavaText(p.epaSyncStatus),
               if p.epaLastSync.Some? then DateTimeText(p.epaLastSync.value) else "",
               p.epaSyncError.GetOr(""))
  }

  /** getEPAStatus. */
  function GetStatus(s: Store, id: int): (r: Reply)
    ensures id !in s <==> r == Reply(404, Error(NotFoundMessage))
    ensures id in s ==> r == Reply(200, SyncState(View(s[id])))
  {
    if id !in s then Reply(404, Error(NotFoundMessage)) else Reply(200, SyncState(View(s[id])))
  }

  /** After a successful sync the status shows "synced", the new EPA id, the
      sync time and no error. */
  lemma StatusAfterSync(s: Store, id: int, now: LocalDateTime, base: string, post: Upload, fault: Option<string>)
    requires SyncPatient(s, id, now, base, post, fault).1.code == 200
    ensures var v := View(SyncPatient(s, id, now, base, post, fault).0[id]);
      && v.epaEnabled && v.syncStatus == "synced" && v.syncError == ""
      && v.epaId == post(base + "/Patient", Fhir.PatientToFhir(s[id])).body
      && v.lastSync == DateTimeText(now)
  {
    SyncSuccessState(s, id, now, base, post, fault);
    var row := SyncPatient(s, id, now, base, post, fault).0[id];
    assert Get(row, EpaEnabled) == Get(s[id], EpaEnabled);
  }

  /** fetchFromEPA: the EPA's text on 200, otherwise 404. */
  function FetchFromEpa(epaId: Option<string>, base: string, get: Download): (r: Reply)
    ensures r.code == 200 <==> FetchPatient(epaId, base, get).Some?
    ensures r.code == 200 ==> r.body == Document(FetchPatient(epaId, base, get).value)
    ensures r.code != 200 ==> r == Reply(404, Error(NotInEpaMessage))
  {
    match FetchPatient(epaId, base, get)
    case Some(text) => Reply(200, Document(text))
    case None => Reply(404, Error(NotInEpaMessage))
  }

  /** testConnection: 200 when the health check answers 200, else 503. */
  function CheckConnection(base: string, get: Download): (r: Reply)
    ensures r.code == 200 <==> TestConnection(base, get)
    ensures r.code == 200 ==> r.body == Connection(true, ConnectedMessage)
    ensures r.code != 200 ==> r == Reply(503, Connection(false, UnreachableMessage))
  {
    if TestConnection(base, get) then Reply(200, Connection(true, ConnectedMessage))
    else Reply(503, Connection(false, UnreachableMessage))
  }

  lemma SubsetSize(a: set<int>, b: set<int>)
    requires a <= b
    ensures |a| <= |b|
  {
    assert b == a + (b - a);
  }

  /** getEPAStatistics: all rows, rows with consent, synced rows, failed rows. */
  function GetStatistics(s: Store): (r: Reply)
    ensures r.code == 200 && r.body.Statistics?
    ensures r.body.total == |s|
    ensures r.body.epaEnabled == |Matching(s, Consenting)|
    ensures r.body.synced == |Matching(s, (p: Patient) => p.epaSyncStatus == Some("synced"))|
    ensures r.body.errors == |Matching(s, (p: Patient) => p.epaSyncStatus == Some("error"))|
    ensures r.body.epaEnabled <= r.body.total
    ensures r.body.synced + r.body.errors <= r.body.total
  {
    var enabled := Matching(s, Consenting);
    var synced := Matching(s, (p: Patient) => p.epaSyncStatus == Some("synced"));
    var errors := Matching(s, (p: Patient) => p.epaSyncStatus == Some("error"));
    SubsetSize(enabled, s.Keys);
    assert synced !! errors;
    SubsetSize(synced + errors, s.Keys);
    Reply(200, Statistics(|s|, |enabled|, |synced|, |errors|))
  }
}
