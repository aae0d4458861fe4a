/** The Patient entity: its fields, the defaults a new instance starts with,
    the two persistence hooks that stamp timestamps, the setters, and the
    column constraints the patients table enforces. */
module PatientEntity {
  import opened Wrappers
  import opened Calendar

  /** One row of the patients table. Every reference-typed Java field is an
      Option (None is null). The diagnosis and medication lists are not part
      of this model. */
  datatype Patient = Patient(
    id: Option<int>,
    firstName: Option<string>,
    lastName: Option<string>,
    dateOfBirth: Option<LocalDate>,
    gender: Option<string>,
    phone: Option<string>,
    email: Option<string>,
    address: Option<string>,
    insuranceNumber: Option<string>,
    bloodType: Option<string>,
    allergies: Option<string>,
    emergencyContactName: Option<string>,
    emergencyContactPhone: Option<string>,
    admissionDate: Option<LocalDateTime>,
    dischargeDate: Option<LocalDateTime>,
    status: Option<string>,
    createdAt: Option<LocalDateTime>,
    updatedAt: Option<LocalDateTime>,
    epaId: Option<string>,
    epaSyncStatus: Option<string>,
    epaLastSync: Option<LocalDateTime>,
    epaSyncError: Option<string>,
    epaEnabled: Option<bool>,
    epaConsentDate: Option<LocalDateTime>)

  /** The names of the entity's fields, for stating frames. */
  datatype Field =
    | Id | FirstName | LastName | DateOfBirth | Gender | Phone | Email | Address
    | InsuranceNumber | BloodType | Allergies | EmergencyContactName | EmergencyContactPhone
    | AdmissionDate | DischargeDate | Status | CreatedAt | UpdatedAt
    | EpaId | EpaSyncStatus | EpaLastSync | EpaSyncError | EpaEnabled | EpaConsentDate

  /** A field's value, tagged with its Java type. */
  datatype Value =
    | Number(n: Option<int>)
    | Text(s: Option<string>)
    | Day(d: Option<LocalDate>)
    | Instant(t: Option<LocalDateTime>)
    | Flag(b: Option<bool>)
  {
    predicate IsNull() {
      match this
      case Number(n) => n.None?
      case Text(s) => s.None?
      case Day(d) => d.None?
      case Instant(t) => t.None?
      case Flag(b) => b.None?
    }
  }

  function Get(p: Patient, f: Field): Value {
    match f
    case Id => Number(p.id)
    case FirstName => Text(p.firstName)
    case LastName => Text(p.lastName)
    case DateOfBirth => Day(p.dateOfBirth)
    case Gender => Text(p.gender)
    case Phone => Text(p.phone)
    case Email => Text(p.email)
    case Address => Text(p.address)
    case InsuranceNumber => Text(p.insuranceNumber)
    case BloodType => Text(p.bloodType)
    case Allergies => Text(p.allergies)
    case EmergencyContactName => Text(p.emergencyContactName)
    case EmergencyContactPhone => Text(p.emergencyContactPhone)
    case AdmissionDate => Instant(p.admissionDate)
    case DischargeDate => Instant(p.dischargeDate)
    case Status => Text(p.status)
    case CreatedAt => Instant(p.createdAt)
    case UpdatedAt => Instant(p.updatedAt)
    case EpaId => Text(p.epaId)
    case EpaSyncStatus => Text(p.epaSyncStatus)
    case EpaLastSync => Instant(p.epaLastSync)
    case EpaSyncError => Text(p.epaSyncError)
    case EpaEnabled => Flag(p.epaEnabled)
    case EpaConsentDate => Instant(p.epaConsentDate)
  }

  /** The value has the Java type of the field. */
  predicate Fits(f: Field, v: Value) {
    match f
    case Id => v.Number?
    case DateOfBirth => v.Day?
    case AdmissionDate | DischargeDate | CreatedAt | UpdatedAt | EpaLastSync | EpaConsentDate => v.Instant?
    case EpaEnabled => v.Flag?
    case _ => v.Text?
  }

  /** createdAt and updatedAt have getters only; every other field has a setter. */
  predicate HasSetter(f: Field) {
    f != CreatedAt && f != UpdatedAt
  }

  /** The entity's setters: each writes its own field and no other, and none
      exists for the two audit timestamps. */
  function Set(p: Patient, f: Field, v: Value): (q: Patient)
    requires HasSetter(f) && Fits(f, v)
    ensures Get(q, f) == v
    ensures forall g :: g != f ==> Get(q, g) == Get(p, g)
  {
    match f
    case Id => p.(id := v.n)
    case FirstName => p.(firstName := v.s)
    case LastName => p.(lastName := v.s)
    case DateOfBirth => p.(dateOfBirth := v.d)
    case Gender => p.(gender := v.s)
    case Phone => p.(phone := v.s)
    case Email => p.(email := v.s)
    case Address => p.(address := v.s)
    case InsuranceNumber => p.(insuranceNumber := v.s)
    case BloodType => p.(bloodType := v.s)
    case Allergies => p.(allergies := v.s)
    case EmergencyContactName => p.(emergencyContactName := v.s)
    case EmergencyContactPhone => p.(emergencyContactPhone := v.s)
    case AdmissionDate => p.(admissionDate := v.t)
    case DischargeDate => p.(dischargeDate := v.t)
    case Status => p.(status := v.s)
    case EpaId => p.(epaId := v.s)
    case EpaSyncStatus => p.(epaSyncStatus := v.s)
    case EpaLastSync => p.(epaLastSync := v.t)
    case EpaSyncError => p.(epaSyncError := v.s)
    case EpaEnabled => p.(epaEnabled := v.b)
    case EpaConsentDate => p.(epaConsentDate := v.t)
  }

  /** Only the persist hook writes createdAt: no sequence of setter calls moves it. */
  lemma {:induction false} SettersKeepCreatedAt(p: Patient, writes: seq<(Field, Value)>)
    requires forall i :: 0 <= i < |writes| ==> HasSetter(writes[i].0) && Fits(writes[i].0, writes[i].1)
    ensures ApplySetters(p, writes).createdAt == p.createdAt
    ensures ApplySetters(p, writes).updatedAt == p.updatedAt
    decreases |writes|
  {
    if |writes| > 0 {
      var q := Set(p, writes[0].0, writes[0].1);
      assert Get(q, CreatedAt) == Get(p, CreatedAt);
      assert Get(q, UpdatedAt) == Get(p, UpdatedAt);
      SettersKeepCreatedAt(q, writes[1..]);
    }
  }

  /** Calls the setters in order. */
  function ApplySetters(p: Patient, writes: seq<(Field, Value)>): Patient
    requires forall i :: 0 <= i < |writes| ==> HasSetter(writes[i].0) && Fits(writes[i].0, writes[i].1)
    decreases |writes|
  {
    if |writes| == 0 then p
    else ApplySetters(Set(p, writes[0].0, writes[0].1), writes[1..])
  }

  /** The fields a sequence of setter calls writes. */
  function WrittenFields(writes: seq<(Field, Value)>): set<Field> {
    set i | 0 <= i < |writes| :: writes[i].0
  }

  /** Setter calls that each copy their field's value from u leave every
      written field as in u and every other field as it was. */
  lemma {:induction false} SettersCopy(p: Patient, u: Patient, writes: seq<(Field, Value)>)
    requires forall i :: 0 <= i < |writes| ==> HasSetter(writes[i].0) && Fits(writes[i].0, writes[i].1)
    requires forall i :: 0 <= i < |writes| ==> writes[i].1 == Get(u, writes[i].0)
    ensures forall f :: Get(ApplySetters(p, writes), f) == if f in WrittenFields(writes) then Get(u, f) else Get(p, f)
    decreases |writes|
  {
    if |writes| > 0 {
      var q := Set(p, writes[0].0, writes[0].1);
      var rest := writes[1..];
      SettersCopy(q, u, rest);
      assert WrittenFields(writes) == {writes[0].0} + WrittenFields(rest) by {
        assert forall i :: 1 <= i < |writes| ==> writes[i] == rest[i - 1];
        forall f | f in WrittenFields(rest)
          ensures f in WrittenFields(writes)
        {
          var i :| 0 <= i < |rest| && rest[i].0 == f;
          assert writes[i + 1].0 == f;
        }
      }
    }
  }

  /** `new Patient()`: status "active", sync status "pending", consent given,
      every other field null. */
  function NewPatient(): (p: Patient)
    ensures p.status == Some("active")
    ensures p.epaSyncStatus == Some("pending")
    ensures p.epaEnabled == Some(true)
    ensures forall g :: g !in {Status, EpaSyncStatus, EpaEnabled} ==> Get(p, g).IsNull()
  {
    Patient(None, None, None, None, None, None, None, None, None, None, None, None, None,
            None, None, Some("active"), None, None, None, Some("pending"), None, None, Some(true), None)
  }

  /** The pre-persist hook: both audit timestamps become now, and admissionDate
      becomes now only if it was unset. Nothing else changes. */
  function OnCreate(p: Patient, now: LocalDateTime): (q: Patient)
    ensures q.createdAt == Some(now) && q.updatedAt == Some(now)
    ensures q.admissionDate == if p.admissionDate.None? then Some(now) else p.admissionDate
    ensures q.admissionDate.Some?
    ensures forall g :: g !in {CreatedAt, UpdatedAt, AdmissionDate} ==> Get(q, g) == Get(p, g)
  {
    var stamped := p.(createdAt := Some(now), updatedAt := Some(now));
    if p.admissionDate.None? then stamped.(admissionDate := Some(now)) else stamped
  }

  /** The pre-update hook: only updatedAt moves, and it moves to now. */
  function OnUpdate(p: Patient, now: LocalDateTime): (q: Patient)
    ensures q.updatedAt == Some(now)
    ensures forall g :: g != UpdatedAt ==> Get(q, g) == Get(p, g)
  {
    p.(updatedAt := Some(now))
  }

  /** A string column's length limit, for a value that may be NULL. */
  predicate WithinLength(s: Option<string>, max: nat) {
    s.None? || |s.value| <= max
  }

  /** The column definitions of the patients table: the NOT NULL columns are
      set and every bounded text column is within its length. Uniqueness of
      insurance_number and epa_id is a property of the whole table. */
  predicate ColumnsValid(p: Patient) {
    && p.firstName.Some? && p.lastName.Some? && p.dateOfBirth.Some?
    && p.gender.Some? && p.insuranceNumber.Some?
    && WithinLength(p.firstName, 100)
    && WithinLength(p.lastName, 100)
    && WithinLength(p.gender, 20)
    && WithinLength(p.phone, 20)
    && WithinLength(p.email, 100)
    && WithinLength(p.insuranceNumber, 50)
    && WithinLength(p.bloodType, 5)
    && WithinLength(p.emergencyContactName, 100)
    && WithinLength(p.emergencyContactPhone, 20)
    && WithinLength(p.status, 20)
    && WithinLength(p.epaId, 100)
    && WithinLength(p.epaSyncStatus, 20)
  }
}
