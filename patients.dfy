/** The patient data model: the request bodies the endpoints accept, their
    declared field constraints, and the JSON objects the store keeps for them.
 */
module Patients {
  import opened Results

  /** A JSON value as it can appear in a stored patient record. */
  datatype Value = Null | Int(n: int) | Str(s: string) | StrList(items: seq<string>)

  /** The fields of a patient, each standing for its JSON key (see Name). */
  datatype Field =
    | PatientId | FirstName | LastName | Age | Gender | BloodGroup
    | ContactNumber | Email | Address | MedicalHistory | Allergies | CurrentMedications

  /** The JSON key of a field. */
  function Name(f: Field): string {
    match f
    case PatientId => "patient_id"
    case FirstName => "first_name"
    case LastName => "last_name"
    case Age => "age"
    case Gender => "gender"
    case BloodGroup => "blood_group"
    case ContactNumber => "contact_number"
    case Email => "email"
    case Address => "address"
    case MedicalHistory => "medical_history"
    case Allergies => "allergies"
    case CurrentMedications => "current_medications"
  }

  /** A stored patient record: a JSON object from field to value. */
  type Record = map<Field, Value>

  const Genders: set<string> := {"male", "female", "others"}
  const BloodGroups: set<string> := {"A+", "A-", "B+", "B-", "AB+", "AB-", "O+", "O-"}

  /** Lowest admissible age of the create request's Patient (post/post.py). */
  const CreateMinAge := 0
  /** Lowest admissible age of the Patient declared beside the read endpoints (get/advance.py). */
  const ViewMinAge := 1
  const MaxAge := 120

  /** The fields a stored record has: every Patient field except patient_id.
      They are also exactly the fields a partial update may set. */
  const RecordFields: set<Field> :=
    {FirstName, LastName, Age, Gender, BloodGroup, ContactNumber,
     Email, Address, MedicalHistory, Allergies, CurrentMedications}

  /** The full patient body of a create (or predict) request. */
  datatype Patient = Patient(
    patientId: string,
    firstName: string,
    lastName: string,
    age: int,
    gender: string,
    bloodGroup: string,
    contactNumber: string,
    email: string,
    address: string,
    medicalHistory: seq<string>,
    allergies: seq<string>,
    currentMedications: seq<string>)

  /** The declared constraints of a Patient body, for a given lowest age.
      Strings may be empty and lists may hold anything: nothing else is declared. */
  predicate ValidPatient(p: Patient, minAge: int) {
    && minAge <= p.age <= MaxAge
    && p.gender in Genders
    && p.bloodGroup in BloodGroups
  }

  /** The two Patient declarations differ on exactly one input: age 0. */
  lemma AgeZeroSeparatesVariants(p: Patient)
    requires p.gender in Genders && p.bloodGroup in BloodGroups
    ensures ValidPatient(p, ViewMinAge) ==> ValidPatient(p, CreateMinAge)
    ensures ValidPatient(p, CreateMinAge) && !ValidPatient(p, ViewMinAge) <==> p.age == 0
  {
  }

  /** The record a create stores: the request dumped to a JSON object
      without its patient_id field. */
  function ToRecord(p: Patient): (r: Record)
    ensures r.Keys == RecordFields
    ensures PatientId !in r
  {
    map[
      FirstName := Str(p.firstName),
      LastName := Str(p.lastName),
      Age := Int(p.age),
      Gender := Str(p.gender),
      BloodGroup := Str(p.bloodGroup),
      ContactNumber := Str(p.contactNumber),
      Email := Str(p.email),
      Address := Str(p.address),
      MedicalHistory := StrList(p.medicalHistory),
      Allergies := StrList(p.allergies),
      CurrentMedications := StrList(p.currentMedications)]
  }

  /** Reads a stored record back as a Patient with the given id, when every
      field is present with the type the Patient declares. */
  function PatientOf(id: string, r: Record): Option<Patient> {
    if && FirstName in r && r[FirstName].Str?
       && LastName in r && r[LastName].Str?
       && Age in r && r[Age].Int?
       && Gender in r && r[Gender].Str?
       && BloodGroup in r && r[BloodGroup].Str?
       && ContactNumber in r && r[ContactNumber].Str?
       && Email in r && r[Email].Str?
       && Address in r && r[Address].Str?
       && MedicalHistory in r && r[MedicalHistory].StrList?
       && Allergies in r && r[Allergies].StrList?
       && CurrentMedications in r && r[CurrentMedications].StrList?
    then
      Some(Patient(id, r[FirstName].s, r[LastName].s, r[Age].n, r[Gender].s,
                   r[BloodGroup].s, r[ContactNumber].s, r[Email].s, r[Address].s,
                   r[MedicalHistory].items, r[Allergies].items,
                   r[CurrentMedications].items))
    else
      None
  }

  /** Dropping patient_id loses nothing: the id the record is stored under
      together with the record gives the created patient back. */
  lemma RecordRoundTrip(p: Patient)
    ensures PatientOf(p.patientId, ToRecord(p)) == Some(p)
  {
  }

  /** The lengths the predict endpoint reports for a Patient body that passes
      validation: those of the patient id and of the e-mail address. */
  function Predict(p: Patient): (r: Result<(nat, nat)>)
    ensures r.Success? <==> ValidPatient(p, CreateMinAge)
    ensures r.Failure? ==> r.error == Invalid
    ensures r.Success? ==> r.value.0 == |p.patientId| && r.value.1 == |p.email|
  {
    if ValidPatient(p, CreateMinAge) then Success((|p.patientId|, |p.email|)) else Failure(Invalid)
  }

  /** One field of a partial update: left unset, set to null, or set to a value. */
  datatype Patch<T> = Keep | Clear | Put(v: T)

  /** The body of an update request: every field of a Patient but patient_id, each optional. */
  datatype PatientUpdate = PatientUpdate(
    firstName: Patch<string>,
    lastName: Patch<string>,
    age: Patch<int>,
    gender: Patch<string>,
    bloodGroup: Patch<string>,
    contactNumber: Patch<string>,
    email: Patch<string>,
    address: Patch<string>,
    medicalHistory: Patch<seq<string>>,
    allergies: Patch<seq<string>>,
    currentMedications: Patch<seq<string>>)

  /** The update that sets no field. */
  const NoChange := PatientUpdate(Keep, Keep, Keep, Keep, Keep, Keep, Keep, Keep, Keep, Keep, Keep)

  /** The declared constraints of an update body; they bind only values that are given. */
  predicate ValidUpdate(u: PatientUpdate) {
    && (u.age.Put? ==> 0 <= u.age.v <= MaxAge)
    && (u.gender.Put? ==> u.gender.v in Genders)
    && (u.bloodGroup.Put? ==> u.bloodGroup.v in BloodGroups)
  }

  function Lift<T>(p: Patch<T>, wrap: T -> Value): Patch<Value> {
    match p
    case Keep => Keep
    case Clear => Clear
    case Put(v) => Put(wrap(v))
  }

  /** What the update request says about the record field named f. */
  function PatchOf(u: PatientUpdate, f: Field): (r: Patch<Value>)
    ensures r != Keep ==> f in RecordFields
  {
    match f
    case PatientId => Keep
    case FirstName => Lift(u.firstName, s => Str(s))
    case LastName => Lift(u.lastName, s => Str(s))
    case Age => Lift(u.age, n => Int(n))
    case Gender => Lift(u.gender, s => Str(s))
    case BloodGroup => Lift(u.bloodGroup, s => Str(s))
    case ContactNumber => Lift(u.contactNumber, s => Str(s))
    case Email => Lift(u.email, s => Str(s))
    case Address => Lift(u.address, s => Str(s))
    case MedicalHistory => Lift(u.medicalHistory, l => StrList(l))
    case Allergies => Lift(u.allergies, l => StrList(l))
    case CurrentMedications => Lift(u.currentMedications, l => StrList(l))
  }

  function Written(p: Patch<Value>): Value
    requires !p.Keep?
  {
    if p.Clear? then Null else p.v
  }

  /** The update dumped without its unset fields: an explicit null stays in. */
  function Changes(u: PatientUpdate): map<Field, Value> {
    map f | f in RecordFields && !PatchOf(u, f).Keep? :: Written(PatchOf(u, f))
  }

  /** A stored record after an update has been written over it. */
  function Merge(rec: Record, u: PatientUpdate): (r: Record)
    ensures forall f :: PatchOf(u, f).Keep? ==> (f in r <==> f in rec) && (f in rec ==> r[f] == rec[f])
    ensures forall f :: PatchOf(u, f).Clear? ==> f in r && r[f] == Null
    ensures forall f :: PatchOf(u, f).Put? ==> f in r && r[f] == PatchOf(u, f).v
  {
    rec + Changes(u)
  }

  /** Writing the same update twice leaves the record as writing it once. */
  lemma MergeIdempotent(rec: Record, u: PatientUpdate)
    ensures Merge(Merge(rec, u), u) == Merge(rec, u)
  {
  }

  /** An update that sets no field leaves the record as it was. */
  lemma MergeNoChange(rec: Record)
    ensures Merge(rec, NoChange) == rec
  {
    forall f ensures PatchOf(NoChange, f) == Keep {
    }
    assert Changes(NoChange) == map[];
  }

  /** An update never writes patient_id, so a record without it stays without it. */
  lemma MergeKeepsIdDetached(rec: Record, u: PatientUpdate)
    requires PatientId !in rec
    ensures PatientId !in Merge(rec, u)
  {
    assert PatchOf(u, PatientId) == Keep;
  }
}
