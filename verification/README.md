# Hospital patient records and EPA synchronisation — a Dafny model

This project models the core of a hospital patient-management back end and
its link to the German electronic patient record (EPA, *elektronische
Patientenakte*). It models these pieces:

- **The `Patient` entity** (`patient.dfy`): its 24 nullable fields, the
  defaults of `new Patient()`, the persist and update hooks, the setters,
  and the column constraints of the `patients` table.
- **The FHIR converter** (`fhir.dfy`, over the JSON tree of `json.dfy`):
  - `patientToFHIR`, which builds an HL7 FHIR R4 Patient resource;
  - the two gender tables;
  - the partial inverse `fhirToPatient`;
  - `createPatientBundle`, which builds a Bundle of type `collection`.
- **The EPA client** (`epa_service.dfy`): how the answers of the EPA system
  are classified into an `EPAResponse`, and the bulk loop that counts
  successes and failures.
  - The HTTP client is replaced by transport functions.
  - A transport function gives, for a request, either the status and body of
    the answer or the message of the exception the client raised.
- **The table as the entity manager presents it** (`store.dfy`):
  - a map from id to row;
  - the flush of a changed entity, which runs the update hook and checks the
    unique columns;
  - the named queries ordered by last name.
- **The `/patients` resource** (`patient_resource.dfy`): list, get, search,
  create, update and delete, as operations on that map.
- **The `/epa` resource** (`epa_resource.dfy`):
  - the per-patient sync and consent state machine over the EPA fields;
  - the bulk sync;
  - the status view, fetch, the connection test and the statistics.
- **`escapeHtml` of the browser client** (`html.dfy`).

Supporting modules:
- `wrappers.dfy` holds `Option` and `Result`.
- `text.dfy` holds decimal digits, Latin-1 lower-casing, SQL `LIKE`, and the
  text order used by `ORDER BY`.
- `calendar.dfy` holds `LocalDate` and `LocalDateTime`, their ISO spellings,
  and the strict ISO date parser.

Java `null` is `None`. `Boolean.TRUE.equals(x)` is `x == Some(true)`.

Anything the code reads from outside is a parameter:
- the clock reading `now`;
- the generated id;
- the EPA base URL;
- the transport functions;
- the message of a converter exception.

Every HTTP reply is a status code plus a structured body.

## Model

| member | source | states |
|---|---|---|
| `Fhir.GenderToFhir` | src/main/java/com/hospital/epa/FHIRConverter.java:131-148 | After lower-casing, "männlich" or "male" gives "male", "weiblich" or "female" gives "female", "divers" or "other" gives "other"; null and everything else give "unknown" |
| `Fhir.GenderCaseInsensitive` | src/main/java/com/hospital/epa/FHIRConverter.java:135 | The forward gender table compares after lower-casing, so a value and its lower-case form map to the same code |
| `Fhir.FhirToGender` | src/main/java/com/hospital/epa/FHIRConverter.java:192-203 | "male" gives "Männlich", "female" gives "Weiblich", "other" gives "Divers" (exact match); every other code gives "Unbekannt" |
| `Fhir.GenderRoundTrip` | src/main/java/com/hospital/epa/FHIRConverter.java:131-203 | Männlich, Weiblich and Divers survive forward-then-back; each of the four FHIR codes survives back-then-forward |
| `Fhir.GenderCodesReached` | src/main/java/com/hospital/epa/FHIRConverter.java:131-148 | Every one of the four codes is produced by some input |
| `Fhir.StoredRowsConvertible` | src/main/java/com/hospital/entity/Patient.java:45-67 | A row the table accepts has every field the converter dereferences (insurance number, both names, date of birth) |
| `Fhir.Telecom` | src/main/java/com/hospital/epa/FHIRConverter.java:51-63 | One entry per non-empty phone and email, the home phone first and the email last |
| `Fhir.Extensions` | src/main/java/com/hospital/epa/FHIRConverter.java:79-96 | 0 to 2 entries: the blood type first when non-empty, the allergies last when non-empty |
| `Fhir.FhirKeyOrder` | src/main/java/com/hospital/epa/FHIRConverter.java:21-126 | The member order of the resource; address and contact appear exactly when their source field is non-empty |
| `Fhir.FhirPatientFields` | src/main/java/com/hospital/epa/FHIRConverter.java:25-122 | The value of every member of the resource, as listed below the table |
| `Fhir.FhirPatientNullFree` | src/main/java/com/hospital/epa/FHIRConverter.java:51-122 | The converter never emits a JSON null: every optional value is guarded |
| `Fhir.ReadNameExported` | src/main/java/com/hospital/epa/FHIRConverter.java:157-161 | Reading an exported name array sets last name from family and first name from the first given name |
| `Fhir.ReadBirthDateExported` | src/main/java/com/hospital/epa/FHIRConverter.java:164-166 | Reading an exported birthDate gives back the same date |
| `Fhir.ReadIdentifierExported` | src/main/java/com/hospital/epa/FHIRConverter.java:175-178 | Reading an exported identifier gives back the insurance number |
| `Fhir.FhirRoundTrip` | src/main/java/com/hospital/epa/FHIRConverter.java:153-187 | The lossy round trip, as listed below the table |
| `Fhir.FhirRoundTripGender` | src/main/java/com/hospital/epa/FHIRConverter.java:169-172 | The round trip keeps the gender exactly when it is one of the three canonical German values |
| `Fhir.CreateBundle` | src/main/java/com/hospital/epa/FHIRConverter.java:208-223 | resourceType "Bundle", type "collection", total is the list length, and entry i holds the resource of patient i, in order |
| `Calendar.ParseDateText` | src/main/java/com/hospital/epa/FHIRConverter.java:165 | LocalDate.parse reads back every valid date from its ISO spelling (the spelling the converter writes) |
| `Calendar.FractionText` | src/main/java/com/hospital/rest/EPAResource.java:181 | The fraction of a second is the fewest of 3, 6 or 9 digits whose value, scaled to nine places, is the nanoseconds |
| `Calendar.TimeText` | src/main/java/com/hospital/rest/EPAResource.java:181 | The time spelling: two digits worth the hour, ':', two digits worth the minute; ':' and two digits worth the second exactly when seconds or nanos are non-zero; '.' and the fraction exactly when nanos are non-zero |
| `Calendar.DateTimeText` | src/main/java/com/hospital/rest/EPAResource.java:181 | The LocalDateTime spelling is the date's spelling, 'T', then the time spelling above; with zero seconds and nanos exactly five characters (hh:mm) follow the 'T' |
| `Text.LikeContains` | src/main/java/com/hospital/entity/Patient.java:26 | A LIKE pattern '%'+q+'%' with no wildcard in q matches exactly the strings that contain q |
| `EpaService.SendPatient` | src/main/java/com/hospital/epa/EPAIntegrationService.java:35-63 | Success exactly when the patient converts and the POST answers 200 or 201; the EPA id is the answer body; any failure has no EPA id; another status gives "Fehler bei EPA-Übertragung: " + body; an exception in the client or a conversion failure gives "Technischer Fehler: " + its message |
| `EpaService.SendMessageShape` | src/main/java/com/hospital/epa/EPAIntegrationService.java:49-62 | The message identifies the outcome: the fixed success text exactly on success; on failure the transfer-error prefix exactly when the EPA answered, the technical prefix exactly when it did not or the conversion failed |
| `EpaService.UpdatePatient` | src/main/java/com/hospital/epa/EPAIntegrationService.java:68-93 | The PUT goes to /Patient/ + epaId (null spelled "null"); success exactly on 200, and a success echoes the id passed in; another status gives "Fehler bei EPA-Update: " + body; an exception or a conversion failure gives "Technischer Fehler: " + its message |
| `EpaService.FetchPatient` | src/main/java/com/hospital/epa/EPAIntegrationService.java:98-119 | The body exactly when the GET answers 200; null for any other status and for an exception |
| `EpaService.TestConnection` | src/main/java/com/hospital/epa/EPAIntegrationService.java:143-156 | True exactly when /health answers 200 |
| `EpaService.SyncAll` | src/main/java/com/hospital/epa/EPAIntegrationService.java:124-138 | Every patient is sent and counted once; success + failed is the list length, each count is the number of positions with that outcome |
| `PatientEntity.Set` | src/main/java/com/hospital/entity/Patient.java:140-337 | Each setter writes its own field and no other; createdAt and updatedAt have none |
| `PatientEntity.SettersKeepCreatedAt` | src/main/java/com/hospital/entity/Patient.java:264-270 | No sequence of setter calls moves createdAt or updatedAt |
| `PatientEntity.SettersCopy` | src/main/java/com/hospital/entity/Patient.java:140-337 | Setter calls copying from a second entity leave exactly the written fields as in that entity |
| `PatientEntity.NewPatient` | src/main/java/com/hospital/entity/Patient.java:87-113 | status "active", epaSyncStatus "pending", epaEnabled true, every other field null |
| `PatientEntity.OnCreate` | src/main/java/com/hospital/entity/Patient.java:121-128 | createdAt = updatedAt = now; admissionDate becomes now only when it was null; nothing else changes |
| `PatientEntity.OnUpdate` | src/main/java/com/hospital/entity/Patient.java:130-133 | updatedAt becomes now; no other field changes |
| `Persistence.Flush` | src/main/java/com/hospital/rest/PatientResource.java:121-122 | An unchanged entity is not written; a changed one is stamped by the update hook and written exactly when it still fits the table; other rows never change |
| `Persistence.FlushKeepsValid` | src/main/java/com/hospital/entity/Patient.java:66-98 | A successful flush keeps every row filed under its id, the column limits and the uniqueness of insurance number and EPA id |
| `Persistence.Insert` | src/main/java/com/hospital/entity/Patient.java:24 | Insertion into a list sorted by last name keeps it sorted and is a permutation of the list plus the row |
| `Persistence.RowsFilter` | src/main/java/com/hospital/rest/EPAResource.java:99-105 | Filtering the rows of a key set by a condition counts each row as often as filtering the keys by that condition |
| `Persistence.OrderedQuery` | src/main/java/com/hospital/entity/Patient.java:24-25 | A named query with ORDER BY lastName: the multiset of rows under the matching keys, one per key, sorted by last name |
| `Persistence.UnorderedQuery` | src/main/java/com/hospital/entity/Patient.java:26 | A query without ORDER BY: the multiset of rows under the matching keys, one per key |
| `PatientRoutes.GetAllPatients` | src/main/java/com/hospital/rest/PatientResource.java:33-50 | 200 with the rows sorted by last name: only active rows for status "active", every row for any other value including null; one row per matching key |
| `PatientRoutes.GetPatient` | src/main/java/com/hospital/rest/PatientResource.java:54-66 | 404 exactly when the id is absent, otherwise 200 with the stored row |
| `PatientRoutes.SearchPatients` | src/main/java/com/hospital/rest/PatientResource.java:70-82 | 200 with exactly the rows whose lower-cased first or last name is LIKE the lower-cased '%'+q+'%', one per matching key |
| `PatientRoutes.SearchIsSubstring` | src/main/java/com/hospital/rest/PatientResource.java:72-74 | For a query with no wildcard the search is a case-insensitive substring test on either name |
| `PatientRoutes.CreatePatient` | src/main/java/com/hospital/rest/PatientResource.java:85-94 | 201 exactly when the new row fits the table, and then the store gains it under the new id; otherwise 400 and no change |
| `PatientRoutes.CopyFields` | src/main/java/com/hospital/rest/PatientResource.java:106-119 | The fourteen listed fields come from the body; id, admissionDate, createdAt, updatedAt and the six EPA fields keep their values |
| `PatientRoutes.CopyFieldsBySetters` | src/main/java/com/hospital/rest/PatientResource.java:106-119 | The fourteen setter calls in source order have exactly that effect |
| `PatientRoutes.UpdatePatient` | src/main/java/com/hospital/rest/PatientResource.java:98-128 | 404 and no change for an absent id; otherwise 200 with the row as stored exactly when the flush of the copied fields goes through, and 400 with the failure body and no change when it does not; other rows never change |
| `PatientRoutes.UpdateFrame` | src/main/java/com/hospital/rest/PatientResource.java:106-122 | After a 200 the row holds the body's fourteen fields, every other field but updatedAt as before, and updatedAt = now exactly when something changed |
| `PatientRoutes.DeletePatient` | src/main/java/com/hospital/rest/PatientResource.java:132-145 | 404 and no change for an absent id; otherwise 204, the id is gone and every other row stays |
| `PatientRoutes.GetAfterCreate` | src/main/java/com/hospital/rest/PatientResource.java:85-89 | A created patient can be fetched under its new id as the row the create returned |
| `PatientRoutes.GetAfterDelete` | src/main/java/com/hospital/rest/PatientResource.java:134-140 | After a delete the id is not found |
| `PatientRoutes.CreateKeepsValid` | src/main/java/com/hospital/rest/PatientResource.java:87-88 | Create keeps the table valid |
| `PatientRoutes.UpdateKeepsValid` | src/main/java/com/hospital/rest/PatientResource.java:121-122 | Update keeps the table valid |
| `PatientRoutes.DeleteKeepsValid` | src/main/java/com/hospital/rest/PatientResource.java:139 | Delete keeps the table valid |
| `EpaRoutes.AfterSync` | src/main/java/com/hospital/rest/EPAResource.java:61-79 | On success: EPA id from the result, "synced", last sync now, no error. On failure: "error" and the message, EPA id and last sync kept. No other field changes |
| `EpaRoutes.SyncPatient` | src/main/java/com/hospital/rest/EPAResource.java:44-90 | 404, then 403 when consent is not exactly true, both without a send and without change; 200 with the success message and the EPA id exactly when the send succeeds and the flush goes through; a failed send whose record flushes gives 500 with the send's message; a failed flush gives 500 and no change; when the flush goes through, the new table is exactly the flushed one, so only the update hook and the sync fields touch the row; only the synced row can change |
| `EpaRoutes.SyncSuccessState` | src/main/java/com/hospital/rest/EPAResource.java:61-68 | After a 200 the row is synced with the id the EPA returned, the sync time, no error, and the other fields as before (updatedAt aside) |
| `EpaRoutes.SyncFailureState` | src/main/java/com/hospital/rest/EPAResource.java:74-79 | When a consenting patient's send fails and the record flushes, the row records "error" and the message, keeps its EPA id and last sync time, and every other field but updatedAt is as before |
| `EpaRoutes.SyncKeepsValid` | src/main/java/com/hospital/rest/EPAResource.java:61-79 | The sync endpoint keeps the table valid (a duplicate EPA id makes the flush fail) |
| `EpaRoutes.AfterConsent` | src/main/java/com/hospital/rest/EPAResource.java:141-147 | Granting sets consent true, the consent date to now and "pending"; withdrawing sets consent false and "disabled" and keeps the date; nothing else changes |
| `EpaRoutes.SetConsent` | src/main/java/com/hospital/rest/EPAResource.java:132-160 | 404 and no change for an absent id; 200 with the given or withdrawn message exactly when the flush goes through; otherwise no change |
| `EpaRoutes.ConsentKeepsSyncRecord` | src/main/java/com/hospital/rest/EPAResource.java:141-150 | After a consent change the EPA id, last sync and sync error are as before |
| `EpaRoutes.ConsentKeepsValid` | src/main/java/com/hospital/rest/EPAResource.java:149-150 | The consent endpoint keeps the table valid |
| `EpaRoutes.ConsentThenSync` | src/main/java/com/hospital/rest/EPAResource.java:53-56 | After consent is granted the sync endpoint no longer answers 403 for that patient |
| `EpaRoutes.KeepConsenting` | src/main/java/com/hospital/rest/EPAResource.java:103-105 | Keeps each patient whose consent is exactly true as often as it occurs and drops every other; a list sorted by last name stays sorted |
| `EpaRoutes.SyncAllPatients` | src/main/java/com/hospital/rest/EPAResource.java:97-125 | Attempts the rows of the active, consenting keys, one per key, sorted by last name, so the total is the number of such keys; with none, the fixed message; otherwise 200 with the two counts and total = number attempted; nothing is written back |
| `EpaRoutes.View` | src/main/java/com/hospital/rest/EPAResource.java:175-182 | The status rendering: consent true only for exactly true, a null EPA id, last sync or error shown as "", a null sync status as "null" |
| `EpaRoutes.GetStatus` | src/main/java/com/hospital/rest/EPAResource.java:167-190 | 404 exactly for an absent id, otherwise 200 with the rendering of the row |
| `EpaRoutes.StatusAfterSync` | src/main/java/com/hospital/rest/EPAResource.java:175-182 | After a successful sync the status shows consent, "synced", the new EPA id, the sync time and no error |
| `EpaRoutes.FetchFromEpa` | src/main/java/com/hospital/rest/EPAResource.java:197-212 | 200 with the EPA's text exactly when the fetch returns one, otherwise 404 |
| `EpaRoutes.CheckConnection` | src/main/java/com/hospital/rest/EPAResource.java:219-235 | 200 connected exactly when the health check passes, otherwise 503 not connected |
| `EpaRoutes.GetStatistics` | src/main/java/com/hospital/rest/EPAResource.java:242-269 | The four counts are the sizes of the matching row sets, so consenting <= total and synced + errors <= total |
| `Html.ReplaceAll` | src/main/webapp/ui/ui-utils.js:5-9 | A global replacement of a character that does not occur leaves the text alone |
| `Html.ReplaceAppend` | src/main/webapp/ui/ui-utils.js:5-9 | A global replacement works on the two halves of a concatenation independently, so it acts character by character |
| `Html.ReplaceOne` | src/main/webapp/ui/ui-utils.js:5-9 | On a single character, a global replacement gives the replacement text when the character is the one searched for, and the character itself otherwise |
| `Html.EscapeChar` | src/main/webapp/ui/ui-utils.js:5-9 | Exactly the five special characters get an entity; no entity contains '<', '>', '"' or '\'' |
| `Html.EscapeHtmlIsMap` | src/main/webapp/ui/ui-utils.js:3-10 | Because '&' is replaced first, the five sequential replacements equal the per-character map |
| `Html.EscapeHtmlSafe` | src/main/webapp/ui/ui-utils.js:3-10 | The output never contains '<', '>', '"' or '\'' |
| `Html.EscapeHtmlIdentity` | src/main/webapp/ui/ui-utils.js:4-9 | The output is the input exactly when the input has no special character; the output is never shorter, and longer exactly when there is one |
| `Html.EscapeHtmlRoundTrip` | src/main/webapp/ui/ui-utils.js:3-10 | Decoding the five entities gives the input back, so the escape loses nothing |

`Fhir.FhirPatientFields` gives these member values:
- `resourceType` is "Patient".
- `identifier` is a single official entry whose value is the insurance number.
- `name` is a single official entry with family = last name and given = [first name].
- `gender` is the code `GenderToFhir` gives.
- `birthDate` is the ISO spelling of the date of birth.
- `telecom` and `extension` are the arrays above.
- `active` is true exactly when status is "active".
- `address` and `contact` are as in the source.

`Fhir.FhirRoundTrip` states what the round trip gives back:
- The result is exactly `new Patient()` with six fields set.
- The names, the date of birth and the insurance number come back unchanged.
- The gender comes back through both tables.
- The status comes back as "active" or "discharged".
- Every other field keeps the value `new Patient()` gives it. So status
  aside, `epaSyncStatus` is "pending", `epaEnabled` is true, and all the
  rest, EPA fields and timestamps included, is null.

## Left out

- HTTP and its configuration:
  - The JAX-RS client, the bearer-token header and the environment variables
    that configure the base URL and API key are left out.
  - The base URL is a parameter; `EpaService.DefaultBaseUrl` records its
    default.
  - The answers of the EPA system are transport functions.
- Logging (`LOGGER`) is left out. It has no effect on results.
- The clock:
  - `LocalDateTime.now()` is the parameter `now`.
  - `onCreate` reads the clock three times. The model uses one reading for
    all three.
- JSON text:
  - The model keeps the FHIR document as a JSON tree.
  - Serialising it with `toString` is left out, and so is reading it back
    with `Json.createReader` inside `createPatientBundle`; the model treats
    that re-read as the identity.
  - The JSON-B binding of request bodies is left out: a request body arrives
    as a `Patient`.
- Response bodies:
  - The hand-concatenated JSON bodies of the two resources are structured
    `Body` values.
  - The text of a caught exception is not modelled: such replies carry
    `Failed`.
- Persistence:
  - The entity manager is left out.
  - The database failures the model keeps are the ones a flush reports for
    the column definitions and the two unique columns.
  - Other exceptions of queries and `remove` are not modelled.
  - The cascade to diagnoses and medications on delete is left out; those
    entities are not part of this model.
- `PatientRoutes.CreatePatient`:
  - The identity column's generated id is the parameter `newId`.
  - A client-supplied id in the body is replaced by it. The model does not
    reproduce the provider-specific treatment of a persist with a preset id.
- `Persistence.OrderedQuery`:
  - `ORDER BY lastName` is modelled as ordering by character code.
  - Rows with equal last names may come in either order.
  - The database collation is not modelled.
- `PatientRoutes.SearchPatients`:
  - SQL `LOWER` and Java `toLowerCase` are modelled on ASCII and the Latin-1
    capitals, which covers the German umlauts the gender table needs.
  - Full Unicode case mapping is left out.
- `EpaRoutes.SetConsent`: the `enabled` query parameter is a Java
  `boolean`, so a missing parameter arrives as `false`.
- `EpaService.SyncAll`: the Java `int` counters cannot overflow, since a
  list has fewer than 2^31 elements. The model uses unbounded naturals.
- `EpaRoutes.GetStatistics`: the `Long` counts are unbounded integers.
- `updatePatientInEPA`: no endpoint calls it. It is modelled on its own as
  `EpaService.UpdatePatient`.
- `Fhir.FhirRoundTrip`: the exceptions `fhirToPatient` raises on a
  malformed document are grouped into four kinds. The parser of `birthDate`
  accepts only the strict ISO date form.
- The duplicate package-private `EPAResponse` and `EPASyncResult` classes:
  each is one datatype in the model.
- `escapeHtml` of non-string arguments: the `String(...)` conversion is left
  out, and the model takes a string.
- The rest of the browser client is left out: DOM, `fetch`, dialogs and
  date formatting.
- The validation helpers of the test suite are left out. They are not
  enforced by the application.

## Notes on the code

- The bulk sync (src/main/java/com/hospital/rest/EPAResource.java:97-125)
  only counts outcomes. It writes nothing back to any patient.
- With no consenting active patient, the bulk sync answers 200 with a
  message, not with zero counts (src/main/java/com/hospital/rest/EPAResource.java:107-110).
- The gender survives the FHIR round trip only for "Männlich", "Weiblich"
  and "Divers" (src/main/java/com/hospital/epa/FHIRConverter.java:131-148,
  192-203). Any other spelling, such as "male" or "männlich", comes back as
  the canonical German value or "Unbekannt".
