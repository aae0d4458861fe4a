/** The FHIR R4 mapping of a Patient: the forward mapping to a Patient
    resource, the partial inverse, the gender code tables both ways, and the
    Bundle of type "collection" around several resources. */
module Fhir {
  import opened Wrappers
  import opened Text
  import opened Calendar
  import opened JsonTree
  import opened PatientEntity

  const InsuranceSystem := "urn:oid:1.2.276.0.76.4.8"
  const BloodTypeUrl := "http://hospital.example.com/fhir/StructureDefinition/blood-type"
  const AllergiesUrl := "http://hospital.example.com/fhir/StructureDefinition/allergies"
  /** HL7 v2 table 0131 (contact role); its code "C" is "Emergency Contact". */
  const ContactRoleSystem := "http://terminology.hl7.org/CodeSystem/v2-0131"

  /** A text field that is neither null nor empty. */
  predicate Present(s: Option<string>) {
    s.Some? && |s.value| > 0
  }

  /** The FHIR AdministrativeGender codes. */
  predicate IsGenderCode(c: string) {
    c == "male" || c == "female" || c == "other" || c == "unknown"
  }

  /** The local gender vocabulary to FHIR, compared after lower-casing; null
      and anything unrecognised become "unknown". */
  function GenderToFhir(g: Option<string>): (code: string)
    ensures IsGenderCode(code)
    ensures g.None? ==> code == "unknown"
    ensures code == "male" <==> g.Some? && Lower(g.value) in {"männlich", "male"}
    ensures code == "female" <==> g.Some? && Lower(g.value) in {"weiblich", "female"}
    ensures code == "other" <==> g.Some? && Lower(g.value) in {"divers", "other"}
  {
    if g.None? then "unknown"
    else
      var key := Lower(g.value);
      if key == "männlich" || key == "male" then "male"
      else if key == "weiblich" || key == "female" then "female"
      else if key == "divers" || key == "other" then "other"
      else "unknown"
  }

  /** FHIR gender codes back to the local vocabulary (exact match). */
  function FhirToGender(code: string): (g: string)
    ensures g == "Männlich" || g == "Weiblich" || g == "Divers" || g == "Unbekannt"
    ensures g == "Unbekannt" <==> code != "male" && code != "female" && code != "other"
    ensures code == "male" ==> g == "Männlich"
    ensures code == "female" ==> g == "Weiblich"
    ensures code == "other" ==> g == "Divers"
  {
    if code == "male" then "Männlich"
    else if code == "female" then "Weiblich"
    else if code == "other" then "Divers"
    else "Unbekannt"
  }

  lemma LowerLower(s: string)
    ensures Lower(Lower(s)) == Lower(s)
  {
  }

  /** The forward table only looks at the lower-cased spelling. */
  lemma GenderCaseInsensitive(s: string)
    ensures GenderToFhir(Some(s)) == GenderToFhir(Some(Lower(s)))
  {
    LowerLower(s);
  }

  /** The two tables are inverse on the canonical values: each German term
      survives the round trip, and each FHIR code does too. */
  lemma GenderRoundTrip(g: string, code: string)
    ensures g in {"Männlich", "Weiblich", "Divers"} ==> FhirToGender(GenderToFhir(Some(g))) == g
    ensures IsGenderCode(code) ==> GenderToFhir(Some(FhirToGender(code))) == code
  {
    assert Lower("Männlich") == "männlich";
    assert Lower("Weiblich") == "weiblich";
    assert Lower("Divers") == "divers";
    assert Lower("Unbekannt") == "unbekannt";
  }

  /** The four codes are each reached: no entry of the table is dead. */
  lemma GenderCodesReached(code: string)
    requires IsGenderCode(code)
    ensures exists g :: GenderToFhir(g) == code
  {
    GenderRoundTrip("", code);
    assert GenderToFhir(Some(FhirToGender(code))) == code;
  }

  /** The mapper dereferences these four fields; a null in any of them makes
      it throw a NullPointerException. */
  predicate Convertible(p: Patient) {
    p.insuranceNumber.Some? && p.lastName.Some? && p.firstName.Some? && p.dateOfBirth.Some?
  }

  /** Every row the patients table accepts can be mapped. */
  lemma StoredRowsConvertible(p: Patient)
    requires ColumnsValid(p)
    ensures Convertible(p)
  {
  }

  function PhoneEntry(value: string): Json {
    JObject([("system", JString("phone")), ("value", JString(value)), ("use", JString("home"))])
  }

  function EmailEntry(value: string): Json {
    JObject([("system", JString("email")), ("value", JString(value))])
  }

  function ExtensionEntry(url: string, value: string): Json {
    JObject([("url", JString(url)), ("valueString", JString(value))])
  }

  /** The telecom array: a home phone entry when the phone is present, then an
      email entry when the email is present. */
  function Telecom(p: Patient): (t: seq<Json>)
    ensures |t| == (if Present(p.phone) then 1 else 0) + (if Present(p.email) then 1 else 0)
    ensures Present(p.phone) ==> t[0] == PhoneEntry(p.phone.value)
    ensures Present(p.email) ==> t[|t| - 1] == EmailEntry(p.email.value)
  {
    (if Present(p.phone) then [PhoneEntry(p.phone.value)] else [])
    + (if Present(p.email) then [EmailEntry(p.email.value)] else [])
  }

  /** The extension array: blood type first, then allergies, each only when present. */
  function Extensions(p: Patient): (e: seq<Json>)
    ensures |e| == (if Present(p.bloodType) then 1 else 0) + (if Present(p.allergies) then 1 else 0)
    ensures Present(p.bloodType) ==> e[0] == ExtensionEntry(BloodTypeUrl, p.bloodType.value)
    ensures Present(p.allergies) ==> e[|e| - 1] == ExtensionEntry(AllergiesUrl, p.allergies.value)
  {
    (if Present(p.bloodType) then [ExtensionEntry(BloodTypeUrl, p.bloodType.value)] else [])
    + (if Present(p.allergies) then [ExtensionEntry(AllergiesUrl, p.allergies.value)] else [])
  }

  function AddressEntry(text: string): Json {
    JObject([("use", JString("home")), ("type", JString("physical")), ("text", JString(text))])
  }

  /** The emergency contact: relationship code "C", the name as text, and a
      phone telecom only when that phone is present. */
  function ContactEntry(p: Patient): Json
    requires Present(p.emergencyContactName)
  {
    var coding := JObject([("system", JString(ContactRoleSystem)), ("code", JString("C")),
                           ("display", JString("Emergency Contact"))]);
    var relationship := ("relationship", JArray([JObject([("coding", JArray([coding]))])]));
    var name := ("name", JObject([("text", JString(p.emergencyContactName.value))]));
    var phone := if Present(p.emergencyContactPhone) then
        [("telecom", JArray([JObject([("system", JString("phone")), ("value", JString(p.emergencyContactPhone.value))])]))]
      else [];
    JObject([relationship, name] + phone)
  }

  function IdentifierEntry(insurance: string): Json {
    JObject([("use", JString("official")), ("system", JString(InsuranceSystem)), ("value", JString(insurance))])
  }

  function NameEntry(family: string, given: string): Json {
    JObject([("use", JString("official")), ("family", JString(family)), ("given", JArray([JString(given)]))])
  }

  /** The member order of the Patient resource, over the already built
      values; address and contact are the only optional members. */
  function Layout(identifier: Json, name: Json, gender: Json, birthDate: Json, telecom: Json,
                  address: Option<Json>, active: Json, extension: Json, contact: Option<Json>): seq<(string, Json)>
  {
    [("resourceType", JString("Patient")), ("identifier", identifier), ("name", name),
     ("gender", gender), ("birthDate", birthDate), ("telecom", telecom)]
    + (if address.Some? then [("address", address.value)] else [])
    + [("active", active), ("extension", extension)]
    + (if contact.Some? then [("contact", contact.value)] else [])
  }

  /** The six leading keys of the layout each find their own value. */
  lemma LayoutHeadLookup(identifier: Json, name: Json, gender: Json, birthDate: Json, telecom: Json,
                     address: Option<Json>, active: Json, extension: Json, contact: Option<Json>)
    ensures var ms := Layout(identifier, name, gender, birthDate, telecom, address, active, extension, contact);
      && Lookup(ms, "resourceType") == Some(JString("Patient"))
      && Lookup(ms, "identifier") == Some(identifier)
      && Lookup(ms, "name") == Some(name)
      && Lookup(ms, "gender") == Some(gender)
      && Lookup(ms, "birthDate") == Some(birthDate)
      && Lookup(ms, "telecom") == Some(telecom)
  {
    var ms := Layout(identifier, name, gender, birthDate, telecom, address, active, extension, contact);
    var head := [("resourceType", JString("Patient")), ("identifier", identifier), ("name", name),
                 ("gender", gender), ("birthDate", birthDate), ("telecom", telecom)];
    LookupAppend(head, ms[6..], "resourceType");
    assert ms == head + ms[6..];
    LookupFirst(head, 0, "resourceType");
    LookupFirst(head, 1, "identifier");
    LookupFirst(head, 2, "name");
    LookupFirst(head, 3, "gender");
    LookupFirst(head, 4, "birthDate");
    LookupFirst(head, 5, "telecom");
    LookupAppend(head, ms[6..], "identifier");
    LookupAppend(head, ms[6..], "name");
    LookupAppend(head, ms[6..], "gender");
    LookupAppend(head, ms[6..], "birthDate");
    LookupAppend(head, ms[6..], "telecom");
  }

  /** active and extension follow the optional address and find their values. */
  lemma LayoutTailLookup(identifier: Json, name: Json, gender: Json, birthDate: Json, telecom: Json,
                     address: Option<Json>, active: Json, extension: Json, contact: Option<Json>)
    ensures var ms := Layout(identifier, name, gender, birthDate, telecom, address, active, extension, contact);
      && Lookup(ms, "active") == Some(active)
      && Lookup(ms, "extension") == Some(extension)
  {
    var ms := Layout(identifier, name, gender, birthDate, telecom, address, active, extension, contact);
    var a := if address.Some? then 1 else 0;
    assert ms[6 + a] == ("active", active) && ms[7 + a] == ("extension", extension);
    forall j | 0 <= j < 6 + a ensures ms[j].0 != "active" {}
    LookupFirst(ms, 6 + a, "active");
    forall j | 0 <= j < 7 + a ensures ms[j].0 != "extension" {}
    LookupFirst(ms, 7 + a, "extension");
  }

  /** The optional members are found exactly when they were given. */
  lemma LayoutOptionalLookup(identifier: Json, name: Json, gender: Json, birthDate: Json, telecom: Json,
                     address: Option<Json>, active: Json, extension: Json, contact: Option<Json>)
    ensures var ms := Layout(identifier, name, gender, birthDate, telecom, address, active, extension, contact);
      && Lookup(ms, "address") == address
      && Lookup(ms, "contact") == contact
  {
    var ms := Layout(identifier, name, gender, birthDate, telecom, address, active, extension, contact);
    var a := if address.Some? then 1 else 0;
    if address.Some? {
      LookupFirst(ms, 6, "address");
    } else {
      assert forall j :: 0 <= j < |ms| ==> ms[j].0 != "address";
      LookupSpec(ms, "address");
    }
    if contact.Some? {
      assert ms[8 + a] == ("contact", contact.value);
      forall j | 0 <= j < 8 + a ensures ms[j].0 != "contact" {}
      LookupFirst(ms, 8 + a, "contact");
    } else {
      assert forall j :: 0 <= j < |ms| ==> ms[j].0 != "contact";
      LookupSpec(ms, "contact");
    }
  }

  /** The resource's members come in a fixed order; address and contact are
      the only optional ones, every other key is always emitted. */
  lemma LayoutKeys(identifier: Json, name: Json, gender: Json, birthDate: Json, telecom: Json,
                   address: Option<Json>, active: Json, extension: Json, contact: Option<Json>)
    ensures Keys(Layout(identifier, name, gender, birthDate, telecom, address, active, extension, contact)) ==
      ["resourceType", "identifier", "name", "gender", "birthDate", "telecom"]
      + (if address.Some? then ["address"] else [])
      + ["active", "extension"]
      + (if contact.Some? then ["contact"] else [])
  {
    var ks := Keys(Layout(identifier, name, gender, birthDate, telecom, address, active, extension, contact));
    var expected := ["resourceType", "identifier", "name", "gender", "birthDate", "telecom"]
      + (if address.Some? then ["address"] else [])
      + ["active", "extension"]
      + (if contact.Some? then ["contact"] else []);
    forall i | 0 <= i < |ks|
      ensures ks[i] == expected[i]
    {
    }
  }

  /** The layout holds a null only where one of the values it was given does. */
  lemma LayoutNullFree(identifier: Json, name: Json, gender: Json, birthDate: Json, telecom: Json,
                       address: Option<Json>, active: Json, extension: Json, contact: Option<Json>)
    requires NullFree(identifier) && NullFree(name) && NullFree(gender) && NullFree(birthDate)
    requires NullFree(telecom) && NullFree(active) && NullFree(extension)
    requires address.Some? ==> NullFree(address.value)
    requires contact.Some? ==> NullFree(contact.value)
    ensures NullFree(JObject(Layout(identifier, name, gender, birthDate, telecom, address, active, extension, contact)))
  {
    var ms := Layout(identifier, name, gender, birthDate, telecom, address, active, extension, contact);
    forall i | 0 <= i < |ms|
      ensures NullFree(ms[i].1)
    {
    }
  }

  function AddressMember(p: Patient): Option<Json> {
    if Present(p.address) then Some(JArray([AddressEntry(p.address.value)])) else None
  }

  function ContactMember(p: Patient): Option<Json> {
    if Present(p.emergencyContactName) then Some(JArray([ContactEntry(p)])) else None
  }

  /** The members of the Patient resource in the order the builder adds them. */
  function FhirMembers(p: Patient): seq<(string, Json)>
    requires Convertible(p)
  {
    Layout(JArray([IdentifierEntry(p.insuranceNumber.value)]),
           JArray([NameEntry(p.lastName.value, p.firstName.value)]),
           JString(GenderToFhir(p.gender)),
           JString(DateText(p.dateOfBirth.value)),
           JArray(Telecom(p)),
           AddressMember(p),
           JBool(p.status == Some("active")),
           JArray(Extensions(p)),
           ContactMember(p))
  }

  /** patientToFHIR: the Patient resource for p. */
  function PatientToFhir(p: Patient): (doc: Json)
    requires Convertible(p)
    ensures doc.JObject?
  {
    JObject(FhirMembers(p))
  }

  /** The keys of the resource, in order: address and contact appear exactly
      when their source fields are present, every other key always. */
  lemma FhirKeyOrder(p: Patient)
    requires Convertible(p)
    ensures Keys(PatientToFhir(p).members) ==
      ["resourceType", "identifier", "name", "gender", "birthDate", "telecom"]
      + (if Present(p.address) then ["address"] else [])
      + ["active", "extension"]
      + (if Present(p.emergencyContactName) then ["contact"] else [])
  {
    LayoutKeys(JArray([IdentifierEntry(p.insuranceNumber.value)]),
               JArray([NameEntry(p.lastName.value, p.firstName.value)]),
               JString(GenderToFhir(p.gender)), JString(DateText(p.dateOfBirth.value)),
               JArray(Telecom(p)), AddressMember(p), JBool(p.status == Some("active")),
               JArray(Extensions(p)), ContactMember(p));
  }

  /** What each member of the resource holds; address and contact are found
      exactly when their source fields are present. */
  lemma FhirPatientFields(p: Patient)
    requires Convertible(p)
    ensures var ms := PatientToFhir(p).members;
      && Lookup(ms, "resourceType") == Some(JString("Patient"))
      && Lookup(ms, "identifier") == Some(JArray([IdentifierEntry(p.insuranceNumber.value)]))
      && Lookup(ms, "name") == Some(JArray([NameEntry(p.lastName.value, p.firstName.value)]))
      && Lookup(ms, "gender") == Some(JString(GenderToFhir(p.gender)))
      && Lookup(ms, "birthDate") == Some(JString(DateText(p.dateOfBirth.value)))
      && Lookup(ms, "telecom") == Some(JArray(Telecom(p)))
      && Lookup(ms, "active") == Some(JBool(p.status == Some("active")))
      && Lookup(ms, "extension") == Some(JArray(Extensions(p)))
      && (Lookup(ms, "address").Some? <==> Present(p.address))
      && (Present(p.address) ==> Lookup(ms, "address") == Some(JArray([AddressEntry(p.address.value)])))
      && (Lookup(ms, "contact").Some? <==> Present(p.emergencyContactName))
      && (Present(p.emergencyContactName) ==> Lookup(ms, "contact") == Some(JArray([ContactEntry(p)])))
  {
    var identifier := JArray([IdentifierEntry(p.insuranceNumber.value)]);
    var name := JArray([NameEntry(p.lastName.value, p.firstName.value)]);
    var gender := JString(GenderToFhir(p.gender));
    var birthDate := JString(DateText(p.dateOfBirth.value));
    var telecom := JArray(Telecom(p));
    var active := JBool(p.status == Some("active"));
    var extension := JArray(Extensions(p));
    LayoutHeadLookup(identifier, name, gender, birthDate, telecom, AddressMember(p), active, extension, ContactMember(p));
    LayoutTailLookup(identifier, name, gender, birthDate, telecom, AddressMember(p), active, extension, ContactMember(p));
    LayoutOptionalLookup(identifier, name, gender, birthDate, telecom, AddressMember(p), active, extension, ContactMember(p));
  }

  /** The resource never carries a JSON null, whatever fields are missing. */
  lemma FhirPatientNullFree(p: Patient)
    requires Convertible(p)
    ensures NullFree(PatientToFhir(p))
  {
    var identifier := JArray([IdentifierEntry(p.insuranceNumber.value)]);
    var name := JArray([NameEntry(p.lastName.value, p.firstName.value)]);
    var telecom := JArray(Telecom(p));
    var extension := JArray(Extensions(p));
    EntriesNullFree(p);
    assert NullFree(identifier);
    assert NullFree(name);
    assert NullFree(telecom);
    assert NullFree(extension);
    if Present(p.emergencyContactName) {
      ContactNullFree(p);
    }
    LayoutNullFree(identifier, name, JString(GenderToFhir(p.gender)), JString(DateText(p.dateOfBirth.value)),
                   telecom, AddressMember(p), JBool(p.status == Some("active")), extension, ContactMember(p));
  }

  lemma EntriesNullFree(p: Patient)
    requires Convertible(p)
    ensures NullFree(IdentifierEntry(p.insuranceNumber.value))
    ensures NullFree(NameEntry(p.lastName.value, p.firstName.value))
    ensures forall i :: 0 <= i < |Telecom(p)| ==> NullFree(Telecom(p)[i])
    ensures forall i :: 0 <= i < |Extensions(p)| ==> NullFree(Extensions(p)[i])
    ensures Present(p.address) ==> NullFree(AddressEntry(p.address.value))
  {
    var n := NameEntry(p.lastName.value, p.firstName.value);
    assert NullFree(n.members[2].1);
  }

  lemma ContactNullFree(p: Patient)
    requires Present(p.emergencyContactName)
    ensures NullFree(ContactEntry(p))
  {
    var coding := JObject([("system", JString(ContactRoleSystem)), ("code", JString("C")),
                           ("display", JString("Emergency Contact"))]);
    assert NullFree(coding);
    var rel := JArray([JObject([("coding", JArray([coding]))])]);
    assert NullFree(JArray([coding]));
    assert NullFree(JObject([("coding", JArray([coding]))]));
    assert NullFree(rel);
    var ms := ContactEntry(p).members;
    forall i | 0 <= i < |ms|
      ensures NullFree(ms[i].1)
    {
      if i == 2 {
        var ph := JObject([("system", JString("phone")), ("value", JString(p.emergencyContactPhone.value))]);
        assert NullFree(ph);
        assert NullFree(JArray([ph]));
      }
    }
  }

  /** The exceptions fhirToPatient can raise on a document it cannot read. */
  datatype JavaException = NullPointer | ClassCast | IndexOutOfBounds | DateTimeParse

  /** JsonObject.getJsonArray: null when the key is missing, a cast failure
      when the value is not an array (JSON null included). */
  function GetArray(ms: seq<(string, Json)>, key: string): Result<Option<seq<Json>>, JavaException> {
    match Lookup(ms, key)
    case None => Ok(None)
    case Some(JArray(items)) => Ok(Some(items))
    case Some(_) => Err(ClassCast)
  }

  /** JsonObject.getString: a null pointer when missing, a cast failure when
      the value is not a string. */
  function GetString(ms: seq<(string, Json)>, key: string): Result<string, JavaException> {
    match Lookup(ms, key)
    case None => Err(NullPointer)
    case Some(JString(s)) => Ok(s)
    case Some(_) => Err(ClassCast)
  }

  /** JsonObject.getBoolean: only JSON true and false are booleans. */
  function GetBoolean(ms: seq<(string, Json)>, key: string): Result<bool, JavaException> {
    match Lookup(ms, key)
    case None => Err(NullPointer)
    case Some(JBool(b)) => Ok(b)
    case Some(_) => Err(ClassCast)
  }

  /** JsonArray.getJsonObject(i) on a possibly null array. */
  function ObjectAt(items: Option<seq<Json>>, i: nat): Result<seq<(string, Json)>, JavaException> {
    if items.None? then Err(NullPointer)
    else if i >= |items.value| then Err(IndexOutOfBounds)
    else match items.value[i]
      case JObject(ms) => Ok(ms)
      case _ => Err(ClassCast)
  }

  /** JsonArray.getString(i) on a possibly null array. */
  function StringAt(items: Option<seq<Json>>, i: nat): Result<string, JavaException> {
    if items.None? then Err(NullPointer)
    else if i >= |items.value| then Err(IndexOutOfBounds)
    else match items.value[i]
      case JString(s) => Ok(s)
      case _ => Err(ClassCast)
  }

  function ReadName(ms: seq<(string, Json)>, p: Patient): Result<Patient, JavaException> {
    if Lookup(ms, "name").None? then Ok(p)
    else
      var names :- GetArray(ms, "name");
      var name :- ObjectAt(names, 0);
      var family :- GetString(name, "family");
      var given :- GetArray(name, "given");
      var first :- StringAt(given, 0);
      Ok(p.(lastName := Some(family), firstName := Some(first)))
  }

  function ReadBirthDate(ms: seq<(string, Json)>, p: Patient): Result<Patient, JavaException> {
    if Lookup(ms, "birthDate").None? then Ok(p)
    else
      var text :- GetString(ms, "birthDate");
      match ParseDate(text)
      case None => Err(DateTimeParse)
      case Some(d) => Ok(p.(dateOfBirth := Some(d)))
  }

  function ReadGender(ms: seq<(string, Json)>, p: Patient): Result<Patient, JavaException> {
    if Lookup(ms, "gender").None? then Ok(p)
    else
      var code :- GetString(ms, "gender");
      Ok(p.(gender := Some(FhirToGender(code))))
  }

  function ReadIdentifier(ms: seq<(string, Json)>, p: Patient): Result<Patient, JavaException> {
    if Lookup(ms, "identifier").None? then Ok(p)
    else
      var ids :- GetArray(ms, "identifier");
      var id :- ObjectAt(ids, 0);
      var value :- GetString(id, "value");
      Ok(p.(insuranceNumber := Some(value)))
  }

  function ReadActive(ms: seq<(string, Json)>, p: Patient): Result<Patient, JavaException> {
    if Lookup(ms, "active").None? then Ok(p)
    else
      var active :- GetBoolean(ms, "active");
      Ok(p.(status := Some(if active then "active" else "discharged")))
  }

  /** fhirToPatient: a fresh Patient filled from name, birthDate, gender,
      identifier and active, each read only when its key is present. */
  function FhirToPatient(ms: seq<(string, Json)>): Result<Patient, JavaException> {
    var p1 :- ReadName(ms, NewPatient());
    var p2 :- ReadBirthDate(ms, p1);
    var p3 :- ReadGender(ms, p2);
    var p4 :- ReadIdentifier(ms, p3);
    ReadActive(ms, p4)
  }

  /** Reading back an exported resource: names, birth date and insurance
      number come back unchanged, status collapses to active/discharged, the
      gender goes through both tables, and everything the reader does not
      look at is left at the defaults of a new Patient. */
  lemma FhirRoundTrip(p: Patient)
    requires Convertible(p)
    ensures FhirToPatient(PatientToFhir(p).members)
      == Ok(NewPatient().(lastName := p.lastName, firstName := p.firstName,
                          dateOfBirth := p.dateOfBirth,
                          gender := Some(FhirToGender(GenderToFhir(p.gender))),
                          insuranceNumber := p.insuranceNumber,
                          status := Some(if p.status == Some("active") then "active" else "discharged")))
  {
    FhirPatientFields(p);
    var ms := PatientToFhir(p).members;
    ReadNameExported(ms, NewPatient(), p.lastName.value, p.firstName.value);
    var p1 := NewPatient().(lastName := p.lastName, firstName := p.firstName);
    ReadBirthDateExported(ms, p1, p.dateOfBirth.value);
    var p2 := p1.(dateOfBirth := p.dateOfBirth);
    var p3 := p2.(gender := Some(FhirToGender(GenderToFhir(p.gender))));
    ReadIdentifierExported(ms, p3, p.insuranceNumber.value);
    var p4 := p3.(insuranceNumber := p.insuranceNumber);
    assert FhirToPatient(ms) == ReadActive(ms, p4);
  }

  /** The name member as exported reads back as the same family and given name. */
  lemma ReadNameExported(ms: seq<(string, Json)>, q: Patient, family: string, given: string)
    requires Lookup(ms, "name") == Some(JArray([NameEntry(family, given)]))
    ensures ReadName(ms, q) == Ok(q.(lastName := Some(family), firstName := Some(given)))
  {
    var n := NameEntry(family, given);
    LookupFirst(n.members, 1, "family");
    LookupFirst(n.members, 2, "given");
  }

  /** An exported birth date parses back to the same day. */
  lemma ReadBirthDateExported(ms: seq<(string, Json)>, q: Patient, d: LocalDate)
    requires Lookup(ms, "birthDate") == Some(JString(DateText(d)))
    ensures ReadBirthDate(ms, q) == Ok(q.(dateOfBirth := Some(d)))
  {
    ParseDateText(d);
  }

  /** The exported identifier reads back as the same insurance number. */
  lemma ReadIdentifierExported(ms: seq<(string, Json)>, q: Patient, insurance: string)
    requires Lookup(ms, "identifier") == Some(JArray([IdentifierEntry(insurance)]))
    ensures ReadIdentifier(ms, q) == Ok(q.(insuranceNumber := Some(insurance)))
  {
    LookupFirst(IdentifierEntry(insurance).members, 2, "value");
  }

  /** A German canonical gender term survives the export and re-import. */
  lemma FhirRoundTripGender(p: Patient)
    requires Convertible(p)
    requires p.gender == Some("Männlich") || p.gender == Some("Weiblich") || p.gender == Some("Divers")
    ensures FhirToPatient(PatientToFhir(p).members).Ok?
    ensures FhirToPatient(PatientToFhir(p).members).value.gender == p.gender
  {
    FhirRoundTrip(p);
    GenderRoundTrip(p.gender.value, "");
  }

  /** createPatientBundle: a collection Bundle with one entry per patient, in order. */
  function CreateBundle(ps: seq<Patient>): (b: Json)
    requires forall i :: 0 <= i < |ps| ==> Convertible(ps[i])
    ensures b.JObject?
    ensures Lookup(b.members, "resourceType") == Some(JString("Bundle"))
    ensures Lookup(b.members, "type") == Some(JString("collection"))
    ensures Lookup(b.members, "total") == Some(JNumber(|ps|))
    ensures Lookup(b.members, "entry").Some? && Lookup(b.members, "entry").value.JArray?
    ensures var entries := Lookup(b.members, "entry").value.items;
      |entries| == |ps| &&
      forall i :: 0 <= i < |ps| ==> entries[i] == JObject([("resource", PatientToFhir(ps[i]))])
  {
    var entries := seq(|ps|, i requires 0 <= i < |ps| => JObject([("resource", PatientToFhir(ps[i]))]));
    var ms := [("resourceType", JString("Bundle")), ("type", JString("collection")),
               ("total", JNumber(|ps|)), ("entry", JArray(entries))];
    LookupFirst(ms, 0, "resourceType");
    LookupFirst(ms, 1, "type");
    LookupFirst(ms, 2, "total");
    LookupFirst(ms, 3, "entry");
    JObject(ms)
  }
}
