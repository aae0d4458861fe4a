/** The /patients resource over the table: listing, lookup, search, create,
    update and delete. Each operation returns the table after it and the
    reply; a failed flush rolls the transaction back and leaves the table as
    it was. */
module PatientRoutes {
  import opened Wrappers
  import opened Text
  import opened Calendar
  import opened PatientEntity
  import opened Persistence
  import opened Replies

  /** The filter of getAllPatients: only "active" selects the active rows,
      anything else (null included) selects every row. */
  function ListFilter(status: Option<string>): Patient -> bool {
    if status == Some("active") then (p: Patient) => p.status == Some("active")
    else (p: Patient) => true
  }

  /** getAllPatients. */
  method GetAllPatients(s: Store, status: Option<string>) returns (r: Reply)
    ensures r.code == 200 && r.body.Patients?
    ensures Sorted(r.body.patients)
    ensures forall p :: p in r.body.patients <==>
      exists k :: k in s && s[k] == p && (status == Some("active") ==> p.status == Some("active"))
    ensures |r.body.patients| == |Matching(s, ListFilter(status))|
    ensures multiset(r.body.patients) == Rows(s, Matching(s, ListFilter(status)))
  {
    var rows := OrderedQuery(s, ListFilter(status));
    r := Reply(200, Patients(rows));
  }

  /** getPatient. */
  function GetPatient(s: Store, id: int): (r: Reply)
    ensures r.code == 404 <==> id !in s
    ensures r.code != 404 ==> r == Reply(200, OnePatient(s[id]))
    ensures r.code == 404 ==> r.body == Error(NotFoundMessage)
  {
    if id !in s then Reply(404, Error(NotFoundMessage)) else Reply(200, OnePatient(s[id]))
  }

  /** The search condition: either name, lower-cased, is LIKE the lower-cased
      pattern '%' + q + '%' (a null query is spelled "null"); a null name
      matches nothing. */
  predicate SearchMatches(p: Patient, q: Option<string>) {
    var pattern := Lower("%" + JavaText(q) + "%");
    (p.firstName.Some? && Like(Lower(p.firstName.value), pattern))
    || (p.lastName.Some? && Like(Lower(p.lastName.value), pattern))
  }

  /** searchPatients: the matching rows, in no promised order. */
  method SearchPatients(s: Store, q: Option<string>) returns (r: Reply)
    ensures r.code == 200 && r.body.Patients?
    ensures forall p :: p in r.body.patients <==> exists k :: k in s && s[k] == p && SearchMatches(p, q)
    ensures |r.body.patients| == |Matching(s, (p: Patient) => SearchMatches(p, q))|
    ensures multiset(r.body.patients) == Rows(s, Matching(s, (p: Patient) => SearchMatches(p, q)))
  {
    var rows := UnorderedQuery(s, (p: Patient) => SearchMatches(p, q));
    r := Reply(200, Patients(rows));
  }

  lemma LowerWildcards(q: string)
    ensures Lower("%" + q + "%") == "%" + Lower(q) + "%"
    ensures NoWildcards(q) <==> NoWildcards(Lower(q))
  {
    assert Lower("%" + q + "%") == "%" + Lower(q) + "%";
  }

  /** For a query without '%' or '_', search is case-insensitive substring
      search on the first and last names. */
  lemma SearchIsSubstring(p: Patient, q: string)
    requires NoWildcards(q)
    ensures SearchMatches(p, Some(q)) <==>
      (p.firstName.Some? && Contains(Lower(p.firstName.value), Lower(q)))
      || (p.lastName.Some? && Contains(Lower(p.lastName.value), Lower(q)))
  {
    LowerWildcards(q);
    if p.firstName.Some? {
      LikeContains(Lower(p.firstName.value), Lower(q));
    }
    if p.lastName.Some? {
      LikeContains(Lower(p.lastName.value), Lower(q));
    }
  }

  /** The row createPatient persists: the generated id, then the pre-persist
      hook. */
  function NewRow(p: Patient, newId: int, now: LocalDateTime): Patient {
    OnCreate(p.(id := Some(newId)), now)
  }

  /** createPatient: persists the body under the id the database generates
      (newId, which no row has yet). 201 with the stored row, or 400 when
      the flush rejects it. */
  function CreatePatient(s: Store, p: Patient, newId: int, now: LocalDateTime): (out: (Store, Reply))
    requires newId !in s
    ensures out.1.code == 201 <==> RowFits(s, NewRow(p, newId, now))
    ensures out.1.code == 201 ==> out.0 == s[newId := NewRow(p, newId, now)] && out.1.body == OnePatient(out.0[newId])
    ensures out.1.code != 201 ==> out == (s, Reply(400, Failed))
  {
    var row := NewRow(p, newId, now);
    if RowFits(s, row) then (s[newId := row], Reply(201, OnePatient(row)))
    else (s, Reply(400, Failed))
  }

  /** The fields updatePatient copies from the request body, in the order
      it calls their setters. */
  const UpdateOrder: seq<Field> := [FirstName, LastName, DateOfBirth, Gender, Phone, Email, Address,
    InsuranceNumber, BloodType, Allergies, EmergencyContactName, EmergencyContactPhone, Status, DischargeDate]

  const UpdatedFields: set<Field> := set f | f in UpdateOrder

  /** The fourteen setter calls of updatePatient on the stored entity. */
  function CopyFields(p: Patient, u: Patient): (q: Patient)
    ensures forall f :: f in UpdatedFields ==> Get(q, f) == Get(u, f)
    ensures forall f :: f !in UpdatedFields ==> Get(q, f) == Get(p, f)
  {
    p.(firstName := u.firstName, lastName := u.lastName, dateOfBirth := u.dateOfBirth, gender := u.gender,
       phone := u.phone, email := u.email, address := u.address, insuranceNumber := u.insuranceNumber,
       bloodType := u.bloodType, allergies := u.allergies, emergencyContactName := u.emergencyContactName,
       emergencyContactPhone := u.emergencyContactPhone, status := u.status, dischargeDate := u.dischargeDate)
  }

  /** A field's getter returns a value of the field's type. */
  lemma GetFits(p: Patient, f: Field)
    ensures Fits(f, Get(p, f))
  {
  }

  /** The setter calls of updatePatient: each of the fourteen fields, in
      order, written with the body's value for it. */
  function UpdateWrites(u: Patient): (ws: seq<(Field, Value)>)
    ensures |ws| == |UpdateOrder|
    ensures forall i :: 0 <= i < |ws| ==> ws[i] == (UpdateOrder[i], Get(u, UpdateOrder[i]))
    ensures forall i :: 0 <= i < |ws| ==> HasSetter(ws[i].0) && Fits(ws[i].0, ws[i].1)
  {
    forall f | f in UpdateOrder
      ensures HasSetter(f) && Fits(f, Get(u, f))
    {
      GetFits(u, f);
    }
    seq(|UpdateOrder|, i requires 0 <= i < |UpdateOrder| => (UpdateOrder[i], Get(u, UpdateOrder[i])))
  }

  /** Making the fourteen setter calls one by one gives CopyFields. */
  lemma CopyFieldsBySetters(p: Patient, u: Patient)
    ensures ApplySetters(p, UpdateWrites(u)) == CopyFields(p, u)
  {
    var ws := UpdateWrites(u);
    SettersCopy(p, u, ws);
    forall f
      ensures f in WrittenFields(ws) <==> f in UpdatedFields
    {
      if f in UpdatedFields {
        var j :| 0 <= j < |UpdateOrder| && UpdateOrder[j] == f;
        assert ws[j].0 == f;
      }
    }
    FieldsDetermine(ApplySetters(p, ws), CopyFields(p, u));
  }

  /** Two patients that agree on every field are the same. */
  lemma FieldsDetermine(a: Patient, b: Patient)
    requires forall f :: Get(a, f) == Get(b, f)
    ensures a == b
  {
    assert Get(a, Id) == Get(b, Id);
    assert Get(a, FirstName) == Get(b, FirstName);
    assert Get(a, LastName) == Get(b, LastName);
    assert Get(a, DateOfBirth) == Get(b, DateOfBirth);
    assert Get(a, Gender) == Get(b, Gender);
    assert Get(a, Phone) == Get(b, Phone);
    assert Get(a, Email) == Get(b, Email);
    assert Get(a, Address) == Get(b, Address);
    assert Get(a, InsuranceNumber) == Get(b, InsuranceNumber);
    assert Get(a, BloodType) == Get(b, BloodType);
    assert Get(a, Allergies) == Get(b, Allergies);
    assert Get(a, EmergencyContactName) == Get(b, EmergencyContactName);
    assert Get(a, EmergencyContactPhone) == Get(b, EmergencyContactPhone);
    assert Get(a, AdmissionDate) == Get(b, AdmissionDate);
    assert Get(a, DischargeDate) == Get(b, DischargeDate);
    assert Get(a, Status) == Get(b, Status);
    assert Get(a, CreatedAt) == Get(b, CreatedAt);
    assert Get(a, UpdatedAt) == Get(b, UpdatedAt);
    assert Get(a, EpaId) == Get(b, EpaId);
    assert Get(a, EpaSyncStatus) == Get(b, EpaSyncStatus);
    assert Get(a, EpaLastSync) == Get(b, EpaLastSync);
    assert Get(a, EpaSyncError) == Get(b, EpaSyncError);
    assert Get(a, EpaEnabled) == Get(b, EpaEnabled);
    assert Get(a, EpaConsentDate) == Get(b, EpaConsentDate);
  }

  /** updatePatient: 404 for an unknown id; otherwise the fourteen fields are
      copied and the entity flushed, giving 200 with the row as stored, or
      400 and no change when the flush fails. */
  function UpdatePatient(s: Store, id: int, u: Patient, now: LocalDateTime): (out: (Store, Reply))
    ensures id !in s ==> out == (s, Reply(404, Error(NotFoundMessage)))
    ensures id in s ==> out.1.code in {200, 400}
    ensures id in s ==> (out.1.code == 200 <==> Flush(s, id, s[id], CopyFields(s[id], u), now).Some?)
    ensures id in s && out.1.code != 200 ==> out.1 == Reply(400, Failed)
    ensures out.1.code != 200 ==> out.0 == s
    ensures out.1.code == 200 ==> out.0.Keys == s.Keys && out.1.body == OnePatient(out.0[id])
    ensures out.1.code == 200 ==> forall k :: k in s && k != id ==> out.0[k] == s[k]
  {
    if id !in s then (s, Reply(404, Error(NotFoundMessage)))
    else
      match Flush(s, id, s[id], CopyFields(s[id], u), now)
      case None => (s, Reply(400, Failed))
      case Some(t) => (t, Reply(200, OnePatient(t[id])))
  }

  /** What an update leaves in the row: the fourteen fields come from the
      body; id, admissionDate, createdAt and every EPA field keep their
      values; updatedAt moves to now exactly when the row changed. */
  lemma UpdateFrame(s: Store, id: int, u: Patient, now: LocalDateTime)
    requires id in s && UpdatePatient(s, id, u, now).1.code == 200
    ensures var row := UpdatePatient(s, id, u, now).0[id];
      && (forall f :: f in UpdatedFields ==> Get(row, f) == Get(u, f))
      && (forall f :: f !in UpdatedFields && f != UpdatedAt ==> Get(row, f) == Get(s[id], f))
      && (row.updatedAt == if CopyFields(s[id], u) == s[id] then s[id].updatedAt else Some(now))
  {
    var before := s[id];
    var after := CopyFields(before, u);
    var row := UpdatePatient(s, id, u, now).0[id];
    assert row == if after == before then before else OnUpdate(after, now);
    assert UpdatedAt !in UpdatedFields;
  }

  /** deletePatient: 404 and no change for an unknown id, otherwise 204 and
      the row is gone while every other row stays. */
  function DeletePatient(s: Store, id: int): (out: (Store, Reply))
    ensures id !in s ==> out == (s, Reply(404, Error(NotFoundMessage)))
    ensures id in s ==> out.1 == Reply(204, NoContent)
    ensures id !in out.0
    ensures out.0.Keys == s.Keys - {id}
    ensures forall k :: k in out.0 ==> out.0[k] == s[k]
  {
    if id !in s then (s, Reply(404, Error(NotFoundMessage)))
    else (s - {id}, Reply(204, NoContent))
  }

  /** A created patient can be read back under its new id. */
  lemma GetAfterCreate(s: Store, p: Patient, newId: int, now: LocalDateTime)
    requires newId !in s
    requires CreatePatient(s, p, newId, now).1.code == 201
    ensures GetPatient(CreatePatient(s, p, newId, now).0, newId) == Reply(200, CreatePatient(s, p, newId, now).1.body)
  {
  }

  /** A deleted patient is not found any more. */
  lemma GetAfterDelete(s: Store, id: int)
    ensures GetPatient(DeletePatient(s, id).0, id).code == 404
  {
  }

  /** Creating keeps the table valid. */
  lemma CreateKeepsValid(s: Store, p: Patient, newId: int, now: LocalDateTime)
    requires Valid(s) && newId !in s
    ensures Valid(CreatePatient(s, p, newId, now).0)
  {
    var t := CreatePatient(s, p, newId, now).0;
    if t != s {
      var row := NewRow(p, newId, now);
      forall k | k in t
        ensures t[k].id == Some(k) && RowFits(t - {k}, t[k])
      {
        if k != newId {
          assert t - {k} == (s - {k})[newId := row];
          assert RowFits(s - {k}, s[k]);
          forall j | j in t - {k}
            ensures t[j].insuranceNumber != t[k].insuranceNumber
            ensures t[k].epaId.Some? ==> t[j].epaId != t[k].epaId
          {
            if j == newId {
              assert k in s;
            }
          }
        } else {
          assert t - {k} == s;
        }
      }
    }
  }

  /** Updating keeps the table valid. */
  lemma UpdateKeepsValid(s: Store, id: int, u: Patient, now: LocalDateTime)
    requires Valid(s)
    ensures Valid(UpdatePatient(s, id, u, now).0)
  {
    if id in s && UpdatePatient(s, id, u, now).1.code == 200 {
      FlushKeepsValid(s, id, CopyFields(s[id], u), now);
    }
  }

  /** Deleting keeps the table valid. */
  lemma DeleteKeepsValid(s: Store, id: int)
    requires Valid(s)
    ensures Valid(DeletePatient(s, id).0)
  {
    var t := DeletePatient(s, id).0;
    forall k | k in t
      ensures t[k].id == Some(k) && RowFits(t - {k}, t[k])
    {
      assert RowFits(s - {k}, s[k]);
      forall j | j in t - {k}
        ensures j in s - {k} && (t - {k})[j] == (s - {k})[j]
      {
      }
    }
  }
}
