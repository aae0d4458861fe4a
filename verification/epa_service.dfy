/** The client side of the electronic patient record (EPA): sending,
    updating and fetching a patient, the connection test and the bulk
    synchronisation. The HTTP client is replaced by transport functions that
    say what the EPA system answers to a request, or which exception the
    client raised. */
module EpaService {
  import opened Wrappers
  import opened Text
  import opened JsonTree
  import opened PatientEntity
  import opened Fhir

  /** The base URL used when the environment does not configure one. */
  const DefaultBaseUrl := "https://epa-system.example.com/api"

  const SentMessage := "Patient erfolgreich übertragen"
  const UpdatedMessage := "Patient erfolgreich aktualisiert"
  const SendErrorPrefix := "Fehler bei EPA-Übertragung: "
  const UpdateErrorPrefix := "Fehler bei EPA-Update: "
  const TechnicalPrefix := "Technischer Fehler: "

  /** What one request ends in: an HTTP status with the response body read
      as text, or an exception whose message may be null. */
  datatype Transport = Answer(code: int, body: string) | Raised(message: Option<string>)

  /** A POST or PUT of a document to a URL. */
  type Upload = (string, Json) -> Transport
  /** A GET of a URL. */
  type Download = string -> Transport

  datatype EpaResponse = EpaResponse(success: bool, epaId: Option<string>, message: string)

  /** The outcome of a bulk synchronisation. */
  datatype SyncResult = SyncResult(successCount: nat, failedCount: nat)

  /** What the send and update calls do with an exception: the message is
      rendered as Java concatenation does, null as "null". */
  function Technical(message: Option<string>): EpaResponse {
    EpaResponse(false, None, TechnicalPrefix + JavaText(message))
  }

  /** sendPatientToEPA. The conversion throws (with the message fault) when
      a field the converter dereferences is null; otherwise the document is
      POSTed to base + "/Patient", and 201 or 200 is a success whose body is
      the new EPA id. */
  function SendPatient(p: Patient, base: string, post: Upload, fault: Option<string>): (r: EpaResponse)
    ensures r.success <==> Convertible(p) && post(base + "/Patient", PatientToFhir(p)).Answer?
                           && post(base + "/Patient", PatientToFhir(p)).code in {200, 201}
    ensures r.success ==> r.epaId == Some(post(base + "/Patient", PatientToFhir(p)).body) && r.message == SentMessage
    ensures !r.success ==> r.epaId.None?
    ensures Convertible(p) && post(base + "/Patient", PatientToFhir(p)).Answer?
            && post(base + "/Patient", PatientToFhir(p)).code !in {200, 201}
            ==> r.message == SendErrorPrefix + post(base + "/Patient", PatientToFhir(p)).body
    ensures Convertible(p) && post(base + "/Patient", PatientToFhir(p)).Raised?
            ==> r == Technical(post(base + "/Patient", PatientToFhir(p)).message)
    ensures !Convertible(p) ==> r == Technical(fault)
  {
    if !Convertible(p) then Technical(fault)
    else
      match post(base + "/Patient", PatientToFhir(p))
      case Raised(message) => Technical(message)
      case Answer(code, body) =>
        if code == 201 || code == 200 then EpaResponse(true, Some(body), SentMessage)
        else EpaResponse(false, None, SendErrorPrefix + body)
  }

  /** updatePatientInEPA. The document is PUT to base + "/Patient/" + epaId
      (a null id is spelled "null"), and only 200 is a success; a success
      echoes the id it was given, null included. */
  function UpdatePatient(p: Patient, epaId: Option<string>, base: string, put: Upload, fault: Option<string>): (r: EpaResponse)
    ensures r.success <==> Convertible(p) && put(base + "/Patient/" + JavaText(epaId), PatientToFhir(p)).Answer?
                           && put(base + "/Patient/" + JavaText(epaId), PatientToFhir(p)).code == 200
    ensures r.success ==> r.epaId == epaId && r.message == UpdatedMessage
    ensures !r.success ==> r.epaId.None?
    ensures Convertible(p) && put(base + "/Patient/" + JavaText(epaId), PatientToFhir(p)).Answer?
            && put(base + "/Patient/" + JavaText(epaId), PatientToFhir(p)).code != 200
            ==> r.message == UpdateErrorPrefix + put(base + "/Patient/" + JavaText(epaId), PatientToFhir(p)).body
    ensures Convertible(p) && put(base + "/Patient/" + JavaText(epaId), PatientToFhir(p)).Raised?
            ==> r == Technical(put(base + "/Patient/" + JavaText(epaId), PatientToFhir(p)).message)
    ensures !Convertible(p) ==> r == Technical(fault)
  {
    if !Convertible(p) then Technical(fault)
    else
      match put(base + "/Patient/" + JavaText(epaId), PatientToFhir(p))
      case Raised(message) => Technical(message)
      case Answer(code, body) =>
        if code == 200 then EpaResponse(true, epaId, UpdatedMessage)
        else EpaResponse(false, None, UpdateErrorPrefix + body)
  }

  /** getPatientFromEPA: the body of a 200 answer, null for any other status
      and for an exception. */
  function FetchPatient(epaId: Option<string>, base: string, get: Download): (r: Option<string>)
    ensures r.Some? <==> get(base + "/Patient/" + JavaText(epaId)).Answer? && get(base + "/Patient/" + JavaText(epaId)).code == 200
    ensures r.Some? ==> r.value == get(base + "/Patient/" + JavaText(epaId)).body
  {
    match get(base + "/Patient/" + JavaText(epaId))
    case Answer(200, body) => Some(body)
    case _ => None
  }

  /** testEPAConnection: true exactly when base + "/health" answers 200. */
  function TestConnection(base: string, get: Download): (ok: bool)
    ensures ok <==> get(base + "/health").Answer? && get(base + "/health").code == 200
  {
    match get(base + "/health")
    case Answer(code, _) => code == 200
    case Raised(_) => false
  }

  predicate HasPrefix(s: string, prefix: string) {
    |prefix| <= |s| && s[..|prefix|] == prefix
  }

  lemma PrefixOfConcat(a: string, b: string)
    ensures HasPrefix(a + b, a)
  {
    assert (a + b)[..|a|] == a;
  }

  /** The message of a send tells the outcome apart: a success carries the
      fixed success text; a failure starts with the transfer-error prefix
      exactly when the EPA answered, and with the technical prefix otherwise. */
  lemma SendMessageShape(p: Patient, base: string, post: Upload, fault: Option<string>)
    ensures var r := SendPatient(p, base, post, fault);
      r.success <==> r.message == SentMessage
    ensures var r := SendPatient(p, base, post, fault);
      !r.success ==> (HasPrefix(r.message, SendErrorPrefix)
                      <==> Convertible(p) && post(base + "/Patient", PatientToFhir(p)).Answer?)
    ensures var r := SendPatient(p, base, post, fault);
      !r.success ==> (HasPrefix(r.message, TechnicalPrefix)
                      <==> !Convertible(p) || post(base + "/Patient", PatientToFhir(p)).Raised?)
  {
    var r := SendPatient(p, base, post, fault);
    if !Convertible(p) {
      TechnicalShape(fault);
    } else if r.success {
    } else if post(base + "/Patient", PatientToFhir(p)).Answer? {
      ErrorMessageShape(SendErrorPrefix, post(base + "/Patient", PatientToFhir(p)).body);
    } else {
      TechnicalShape(post(base + "/Patient", PatientToFhir(p)).message);
    }
  }

  /** A transfer-error text starts with its prefix, not with the technical one,
      and is not the success text. */
  lemma ErrorMessageShape(prefix: string, body: string)
    requires prefix == SendErrorPrefix
    ensures HasPrefix(prefix + body, SendErrorPrefix)
    ensures !HasPrefix(prefix + body, TechnicalPrefix)
    ensures prefix + body != SentMessage
  {
    PrefixOfConcat(prefix, body);
    assert (prefix + body)[0] == 'F';
  }

  /** A technical-error text starts with its prefix, not with the transfer-error
      one, and is not the success text. */
  lemma TechnicalShape(message: Option<string>)
    ensures HasPrefix(Technical(message).message, TechnicalPrefix)
    ensures !HasPrefix(Technical(message).message, SendErrorPrefix)
    ensures Technical(message).message != SentMessage
  {
    PrefixOfConcat(TechnicalPrefix, JavaText(message));
    assert Technical(message).message[0] == 'T';
  }

  /** Whether the EPA accepts each patient, in order. */
  function Outcomes(ps: seq<Patient>, base: string, post: Upload, fault: Option<string>): (os: seq<bool>)
    ensures |os| == |ps|
    ensures forall i :: 0 <= i < |ps| ==> os[i] == SendPatient(ps[i], base, post, fault).success
  {
    seq(|ps|, i requires 0 <= i < |ps| => SendPatient(ps[i], base, post, fault).success)
  }

  /** The number of entries equal to b. */
  function Count(xs: seq<bool>, b: bool): nat {
    if |xs| == 0 then 0 else Count(xs[..|xs| - 1], b) + (if xs[|xs| - 1] == b then 1 else 0)
  }

  /** Each entry is counted on exactly one side. */
  lemma {:induction false} CountSplit(xs: seq<bool>)
    ensures Count(xs, true) + Count(xs, false) == |xs|
    decreases |xs|
  {
    if |xs| > 0 {
      CountSplit(xs[..|xs| - 1]);
    }
  }

  lemma CountStep(xs: seq<bool>, k: nat)
    requires k < |xs|
    ensures forall b :: Count(xs[..k + 1], b) == Count(xs[..k], b) + (if xs[k] == b then 1 else 0)
  {
    assert xs[..k + 1][..k] == xs[..k];
  }

  /** Count agrees with the size of the set of positions holding b. */
  lemma {:induction false} CountPositions(xs: seq<bool>, b: bool)
    ensures Count(xs, b) == |set i | 0 <= i < |xs| && xs[i] == b|
    decreases |xs|
  {
    var all := set i | 0 <= i < |xs| && xs[i] == b;
    if |xs| > 0 {
      var n := |xs| - 1;
      var init := xs[..n];
      CountPositions(init, b);
      var before := set i | 0 <= i < |init| && init[i] == b;
      assert before == set i | 0 <= i < n && xs[i] == b;
      if xs[n] == b {
        assert all == before + {n};
      } else {
        assert all == before;
      }
    } else {
      assert all == {};
    }
  }

  /** The positions of the patients whose send comes out as wanted. */
  function Positions(ps: seq<Patient>, base: string, post: Upload, fault: Option<string>, wanted: bool): (r: set<nat>)
    ensures forall i :: i in r <==> 0 <= i < |ps| && SendPatient(ps[i], base, post, fault).success == wanted
  {
    set i: nat | i < |ps| && SendPatient(ps[i], base, post, fault).success == wanted
  }

  lemma SamePositions(ps: seq<Patient>, base: string, post: Upload, fault: Option<string>, wanted: bool)
    ensures var os := Outcomes(ps, base, post, fault);
      (set i | 0 <= i < |os| && os[i] == wanted) == Positions(ps, base, post, fault, wanted)
  {
  }

  /** syncAllPatientsToEPA: sends every patient in turn and counts the
      answers; nothing is written back to the patients. */
  method SyncAll(ps: seq<Patient>, base: string, post: Upload, fault: Option<string>) returns (result: SyncResult)
    ensures result.successCount + result.failedCount == |ps|
    ensures result.successCount == |Positions(ps, base, post, fault, true)|
    ensures result.failedCount == |Positions(ps, base, post, fault, false)|
  {
    var success: nat := 0;
    var failed: nat := 0;
    ghost var os := Outcomes(ps, base, post, fault);
    for k := 0 to |ps|
      invariant success == Count(os[..k], true)
      invariant failed == Count(os[..k], false)
    {
      var r := SendPatient(ps[k], base, post, fault);
      CountStep(os, k);
      if r.success {
        success := success + 1;
      } else {
        failed := failed + 1;
      }
    }
    assert os[..|ps|] == os;
    CountSplit(os);
    CountPositions(os, true);
    CountPositions(os, false);
    SamePositions(ps, base, post, fault, true);
    SamePositions(ps, base, post, fault, false);
    result := SyncResult(success, failed);
  }
}
