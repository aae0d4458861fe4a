/** The HTTP replies of the two REST resources: a status code and a
    structured body in place of the JSON text the resources concatenate. */
module Replies {
  import opened PatientEntity

  const NotFoundMessage := "Patient nicht gefunden"
  const NoConsentMessage := "Patient hat keine EPA-Einwilligung erteilt"
  const NoneToSyncMessage := "Keine Patienten mit EPA-Einwilligung gefunden"
  const ConsentGivenMessage := "EPA-Einwilligung erteilt"
  const ConsentWithdrawnMessage := "EPA-Einwilligung widerrufen"
  const NotInEpaMessage := "Patient nicht in EPA gefunden"
  const ConnectedMessage := "EPA-Verbindung erfolgreich"
  const UnreachableMessage := "EPA nicht erreichbar"

  /** The EPA fields of one patient as the status endpoint renders them. */
  datatype StatusView = StatusView(epaEnabled: bool, epaId: string, syncStatus: string, lastSync: string, syncError: string)

  datatype Body =
    | Error(message: string)            // {"error": message}
    | Failed                            // {"error": <exception message>}
    | OnePatient(patient: Patient)
    | Patients(patients: seq<Patient>)
    | NoContent
    | Synced(message: string, epaId: string)
    | SyncFailed(error: string)
    | Message(text: string)             // {"message": text}
    | SyncCounts(success: nat, failed: nat, total: nat)
    | ConsentChanged(message: string)   // {"success": true, "message": message}
    | SyncState(view: StatusView)
    | Document(text: string)            // the FHIR text as the EPA sent it
    | Connection(connected: bool, message: string)
    | Statistics(total: nat, epaEnabled: nat, synced: nat, errors: nat)

  datatype Reply = Reply(code: int, body: Body)
}
