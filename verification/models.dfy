/** The rows of the application's three tables (`Admin`, `Patient`, `Reminder`). */
module Models {
  import opened Wrappers
  import opened Timestamps
  import opened Table

  /** A `Patient` row. `email` is nullable; `created_at` is the clock reading at insertion. */
  datatype Patient = Patient(name: string, phoneNumber: string, email: Option<string>, createdAt: Instant)

  /** A `Reminder` row. `patient_id` is a non-nullable foreign key to `Patient`. */
  datatype Reminder = Reminder(patientId: int, message: string, scheduledTime: Instant, status: string,
                               createdAt: Instant)

  /** The default of the `status` column, and the only status the handlers ever write. */
  const Pending := "pending"

  /** `patient.reminders`: the reminders whose foreign key names the patient, in table order. */
  function RemindersOf(reminders: Table<Reminder>, patientId: int): (r: Table<Reminder>)
    ensures forall k :: 0 <= k < |r| ==> r[k].data.patientId == patientId
    ensures r == [] <==> forall k :: 0 <= k < |reminders| ==> reminders[k].data.patientId != patientId
    ensures forall x :: x in r <==> x in reminders && x.data.patientId == patientId
  {
    if reminders == [] then []
    else
      assert forall k :: 1 <= k < |reminders| ==> reminders[k] == reminders[1..][k - 1];
      assert reminders == [reminders[0]] + reminders[1..];
      (if reminders[0].data.patientId == patientId then [reminders[0]] else [])
        + RemindersOf(reminders[1..], patientId)
  }

  /** Referential integrity: every reminder names a patient that exists. */
  ghost predicate RemindersReferencePatients(patients: Table<Patient>, reminders: Table<Reminder>)
  {
    forall k :: 0 <= k < |reminders| ==> HasId(patients, reminders[k].data.patientId)
  }

  /** Usernames are unique among admins (the `unique=True` column). */
  ghost predicate UniqueUsernames(admins: Table<string>)
  {
    forall i, j :: 0 <= i < j < |admins| ==> admins[i].data != admins[j].data
  }
}
