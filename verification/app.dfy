/** The request handlers of the reminder service, over an in-memory session and in-memory
    tables. Each handler returns the HTTP status code and the response fields that matter,
    and either commits its change to the tables or leaves them as they were. */
module App {
  import opened Wrappers
  import opened Timestamps
  import opened Table
  import opened Models
  import opened ReminderQuery
  import SmsHandler

  /** The fixed admin credentials. */
  const AdminUsername := "admin"
  const AdminPassword := "Kdf$325Mfs&7r&d!"

  const Ok := 200
  const Created := 201
  const BadRequest := 400
  const Unauthorized := 401
  const NotFound := 404
  const ServerError := 500

  /** The range of SQLite's signed 64-bit `INTEGER`; a Python integer outside it cannot be
      bound as a query parameter. */
  const MinInt64 := -0x8000_0000_0000_0000
  const MaxInt64 := 0x7FFF_FFFF_FFFF_FFFF

  predicate InInt64(n: int)
  {
    MinInt64 <= n <= MaxInt64
  }

  /** What `send_sms` does with a message: the transport accepts it (`success` true), reports
      a `ClientError` (`success` false), or raises an exception that `send_sms` does not
      catch (a `BotoCoreError` such as missing credentials or no connection). */
  datatype SmsOutcome = Sent | Failed | Raised

  /** One key of a JSON request body: absent, present with `null`, or present with a value. */
  datatype Field<T> = Absent | Null | Given(value: T)

  /** `data.get(key)`: `None` both for an absent key and for `null`. */
  function Get<T>(f: Field<T>): (r: Option<T>)
    ensures r.Some? <==> f.Given?
    ensures r.Some? ==> r.value == f.value
  {
    if f.Given? then Some(f.value) else None
  }

  /** Python truthiness of an optional string: `None` and `""` are false. */
  predicate Truthy(s: Option<string>)
  {
    s.Some? && s.value != ""
  }

  /** Python truthiness of an optional integer: `None` and `0` are false. */
  predicate TruthyId(n: Option<int>)
  {
    n.Some? && n.value != 0
  }

  datatype LoginRequest = LoginRequest(username: Field<string>, password: Field<string>)

  datatype PatientRequest = PatientRequest(name: Field<string>, phoneNumber: Field<string>, email: Field<string>)

  datatype ReminderRequest = ReminderRequest(patientId: Field<int>, message: Field<string>,
                                             scheduledTime: Field<string>)

  /** The SMS handed to the transport: destination and text. */
  datatype SmsRequest = SmsRequest(phoneNumber: string, text: string)

  /** The `reminder` object of a successful `create_reminder` response. */
  datatype ReminderReply = ReminderReply(id: int, patientId: int, message: string, scheduledTime: Instant,
                                         status: string, smsStatus: string)

  /** `admin_required`: the 401 response when the session holds no `admin_id`; `None`
      means the wrapped handler runs. */
  function AdminRequired(adminId: Option<int>): (r: Option<int>)
    ensures r.Some? <==> adminId.None?
    ensures r.Some? ==> r.value == Unauthorized
  {
    if adminId.None? then Some(Unauthorized) else None
  }

  /** `Admin.query.filter_by(username=username).first()`: the id of the first admin row
      with that username. */
  function AdminIdFor(admins: Table<string>, username: string): (r: Option<int>)
    ensures r.Some? <==> exists k :: 0 <= k < |admins| && admins[k].data == username
    ensures r.Some? ==> Row(r.value, username) in admins
  {
    if admins == [] then None
    else if admins[0].data == username then Some(admins[0].id)
    else
      assert forall k :: 1 <= k < |admins| ==> admins[k] == admins[1..][k - 1];
      AdminIdFor(admins[1..], username)
  }

  /** With unique usernames, the lookup finds the one row holding the username. */
  lemma AdminIdForUnique(admins: Table<string>, k: int)
    requires UniqueUsernames(admins) && 0 <= k < |admins|
    ensures AdminIdFor(admins, admins[k].data) == Some(admins[k].id)
  {
    var r := AdminIdFor(admins, admins[k].data).value;
    var j :| 0 <= j < |admins| && admins[j] == Row(r, admins[k].data);
    assert j == k;
  }

  /** Adding a username that no admin holds keeps the usernames unique, and the lookup then
      finds the new row. */
  lemma AdminInsertNew(admins: Table<string>, next: int, username: string)
    requires WellFormed(admins, next) && UniqueUsernames(admins)
    requires AdminIdFor(admins, username).None?
    ensures WellFormed(Insert(admins, next, username), next + 1)
    ensures UniqueUsernames(Insert(admins, next, username))
    ensures AdminIdFor(Insert(admins, next, username), username) == Some(next)
  {
    var grown := Insert(admins, next, username);
    assert forall k :: 0 <= k < |admins| ==> grown[k] == admins[k];
    assert UniqueUsernames(grown);
    AdminIdForUnique(grown, |admins|);
  }

  /** The admin session and the database of one running service. */
  class Server {
    /** `session['admin_id']`, absent as `None`. */
    var adminId: Option<int>
    /** The `Admin` table; each row holds the username (the password hash is not modelled). */
    var admins: Table<string>
    var patients: Table<Patient>
    var reminders: Table<Reminder>
    /** The keys the next insertion into each table receives. */
    var nextAdminId: int
    var nextPatientId: int
    var nextReminderId: int

    ghost predicate Valid()
      reads this
    {
      && WellFormed(admins, nextAdminId) && UniqueUsernames(admins)
      && WellFormed(patients, nextPatientId)
      && WellFormed(reminders, nextReminderId)
      && (adminId.Some? ==> HasId(admins, adminId.value))
      && RemindersReferencePatients(patients, reminders)
    }

    /** A fresh service: no session, empty tables. */
    constructor ()
      ensures Valid()
      ensures adminId == None && admins == [] && patients == [] && reminders == []
    {
      adminId := None;
      admins, patients, reminders := [], [], [];
      nextAdminId, nextPatientId, nextReminderId := 1, 1, 1;
    }

    /** `POST /api/auth/login`. A missing or empty username or password is a 400; the
        fixed admin pair logs in, creating the admin row only if no row has that username;
        any other pair is a 401. Only a successful login touches the session. */
    method Login(request: LoginRequest) returns (code: int)
      requires Valid()
      modifies this
      ensures Valid()
      ensures code == (
        if !Truthy(Get(request.username)) || !Truthy(Get(request.password)) then BadRequest
        else if request.username.value == AdminUsername && request.password.value == AdminPassword then Ok
        else Unauthorized)
      ensures code != Ok ==> adminId == old(adminId) && admins == old(admins) && nextAdminId == old(nextAdminId)
      ensures code == Ok && AdminIdFor(old(admins), AdminUsername).Some? ==>
        admins == old(admins) && nextAdminId == old(nextAdminId)
      ensures code == Ok && AdminIdFor(old(admins), AdminUsername).None? ==>
        admins == old(admins) + [Row(old(nextAdminId), AdminUsername)] && nextAdminId == old(nextAdminId) + 1
      ensures code == Ok ==> adminId.Some? && adminId == AdminIdFor(admins, AdminUsername)
      ensures patients == old(patients) && reminders == old(reminders)
      ensures nextPatientId == old(nextPatientId) && nextReminderId == old(nextReminderId)
    {
      var username := Get(request.username);
      var password := Get(request.password);
      if !Truthy(username) || !Truthy(password) {
        return BadRequest;
      }
      if username.value == AdminUsername && password.value == AdminPassword {
        var existing := AdminIdFor(admins, AdminUsername);
        if existing.None? {
          AdminInsertNew(admins, nextAdminId, AdminUsername);
          admins, adminId := Insert(admins, nextAdminId, AdminUsername), Some(nextAdminId);
          nextAdminId := nextAdminId + 1;
        } else {
          adminId := existing;
        }
        return Ok;
      }
      return Unauthorized;
    }

    /** `POST /api/auth/logout`: drops `admin_id` from the session, present or not. */
    method Logout() returns (code: int)
      requires Valid()
      modifies this`adminId
      ensures Valid()
      ensures adminId.None? && code == Ok
    {
      adminId := None;
      return Ok;
    }

    /** `POST /api/patients`. Requires the admin session; a body lacking the key `name`
        or `phone_number` is a 400 (a key holding `""` is accepted); a key holding `null`
        passes that check but violates the column's NOT NULL constraint at commit, which
        is rolled back and answered 500. Otherwise one patient is added and 201 returned. */
    method CreatePatient(request: PatientRequest, now: Instant) returns (code: int, created: Option<Row<Patient>>)
      requires Valid()
      modifies this
      ensures Valid()
      ensures code == (
        if old(adminId).None? then Unauthorized
        else if request.name.Absent? || request.phoneNumber.Absent? then BadRequest
        else if request.name.Null? || request.phoneNumber.Null? then ServerError
        else Created)
      ensures code == Created ==>
        created == Some(Row(old(nextPatientId),
                            Patient(request.name.value, request.phoneNumber.value, Get(request.email), now)))
        && patients == old(patients) + [created.value]
        && nextPatientId == old(nextPatientId) + 1
      ensures code != Created ==>
        created.None? && patients == old(patients) && nextPatientId == old(nextPatientId)
      ensures adminId == old(adminId) && admins == old(admins) && reminders == old(reminders)
      ensures nextAdminId == old(nextAdminId) && nextReminderId == old(nextReminderId)
    {
      var guard := AdminRequired(adminId);
      if guard.Some? {
        return guard.value, None;
      }
      if request.name.Absent? || request.phoneNumber.Absent? {
        return BadRequest, None;
      }
      if request.name.Null? || request.phoneNumber.Null? {
        return ServerError, None;
      }
      var patient := Patient(request.name.value, request.phoneNumber.value, Get(request.email), now);
      var id := nextPatientId;
      ghost var before := patients;
      patients := Insert(patients, id, patient);
      nextPatientId := nextPatientId + 1;
      forall k | 0 <= k < |reminders| ensures HasId(patients, reminders[k].data.patientId) {
        InsertKeeps(before, id, patient, reminders[k].data.patientId);
      }
      return Created, Some(Row(id, patient));
    }

    /** `DELETE /api/patients/<id>`. The `<int:…>` route passes only non-negative ids.
        Requires the admin session. An unknown id makes `get_or_404` raise, and so does an
        id beyond SQLite's 64-bit integers; the handler's catch-all turns either into a 500. The patient's
        reminders are not deleted with it: the ORM sets their non-nullable `patient_id` to
        NULL, the commit fails, is rolled back and answered 500. A patient without
        reminders is removed, and nothing else is. */
    method DeletePatient(patientId: nat) returns (code: int)
      requires Valid()
      modifies this
      ensures Valid()
      ensures code == (
        if old(adminId).None? then Unauthorized
        else if patientId > MaxInt64 then ServerError
        else if Find(old(patients), patientId).None? then ServerError
        else if RemindersOf(old(reminders), patientId) != [] then ServerError
        else Ok)
      ensures code == Ok ==>
        patients == Delete(old(patients), patientId) && |patients| == |old(patients)| - 1
      ensures code != Ok ==> patients == old(patients)
      ensures adminId == old(adminId) && admins == old(admins) && reminders == old(reminders)
      ensures nextAdminId == old(nextAdminId) && nextPatientId == old(nextPatientId)
      ensures nextReminderId == old(nextReminderId)
    {
      var guard := AdminRequired(adminId);
      if guard.Some? {
        return guard.value;
      }
      if patientId > MaxInt64 || Find(patients, patientId).None? {
        return ServerError;
      }
      if RemindersOf(reminders, patientId) != [] {
        return ServerError;
      }
      ghost var before := patients;
      DeleteExisting(patients, nextPatientId, patientId);
      patients := Delete(patients, patientId);
      forall k | 0 <= k < |reminders| ensures HasId(patients, reminders[k].data.patientId) {
        DeleteKeepsOthers(before, patientId, reminders[k].data.patientId);
      }
      return Ok;
    }

    /** `db.session.add(reminder)` and the commit, for a reminder whose patient exists. */
    method AddReminder(reminder: Reminder) returns (row: Row<Reminder>)
      requires Valid() && HasId(patients, reminder.patientId)
      modifies this`reminders, this`nextReminderId
      ensures Valid()
      ensures row == Row(old(nextReminderId), reminder)
      ensures reminders == old(reminders) + [row] && nextReminderId == old(nextReminderId) + 1
    {
      row := Row(nextReminderId, reminder);
      reminders := Insert(reminders, nextReminderId, reminder);
      nextReminderId := nextReminderId + 1;
    }

    /** The checks of `create_reminder` that come before anything is stored all pass: an
        admin session, truthy `patient_id`, `message` and `scheduled_time`, a patient id
        that SQLite can bind, an existing patient, and a scheduled time that parses once
        every `Z` is `+00:00`. */
    ghost predicate ReminderAccepted(request: ReminderRequest, fromIsoFormat: Parser)
      reads this
    {
      && adminId.Some?
      && TruthyId(Get(request.patientId)) && Truthy(Get(request.message)) && Truthy(Get(request.scheduledTime))
      && InInt64(request.patientId.value)
      && Find(patients, request.patientId.value).Some?
      && fromIsoFormat(ReplaceZulu(request.scheduledTime.value)).Some?
    }

    /** `POST /api/reminders`. Requires the admin session. Then, in this order: a falsy
        `patient_id`, `message` or `scheduled_time` is a 400; a patient id outside SQLite's
        64-bit integers makes the lookup raise, answered 500; an unknown patient is a 404;
        a scheduled time that does not parse (after every `Z` becomes `+00:00`) raises
        before anything is added, answered 500. Otherwise the reminder is committed as
        `pending` with the parsed time as it is, and only then is the SMS formatted and
        handed to the transport. A delivery failure the transport reports shows only in
        `sms_status`; an exception it lets through is answered 500, with the reminder
        already committed and kept. The success status is the default 200. */
    method CreateReminder(request: ReminderRequest, fromIsoFormat: Parser, outcome: SmsOutcome, now: Instant)
      returns (code: int, reply: Option<ReminderReply>, sms: Option<SmsRequest>)
      requires Valid()
      modifies this
      ensures Valid()
      ensures code == (
        if old(adminId).None? then Unauthorized
        else if !TruthyId(Get(request.patientId)) || !Truthy(Get(request.message))
             || !Truthy(Get(request.scheduledTime)) then BadRequest
        else if !InInt64(request.patientId.value) then ServerError
        else if Find(old(patients), request.patientId.value).None? then NotFound
        else if fromIsoFormat(ReplaceZulu(request.scheduledTime.value)).None? then ServerError
        else if outcome.Raised? then ServerError
        else Ok)
      ensures !old(ReminderAccepted(request, fromIsoFormat)) ==>
        reminders == old(reminders) && nextReminderId == old(nextReminderId) && reply.None? && sms.None?
      ensures old(ReminderAccepted(request, fromIsoFormat)) ==>
        var row := Row(old(nextReminderId),
                       Reminder(request.patientId.value, request.message.value,
                                fromIsoFormat(ReplaceZulu(request.scheduledTime.value)).value, Pending, now));
        && reminders == old(reminders) + [row]
        && nextReminderId == old(nextReminderId) + 1
        && reply == (if outcome.Raised? then None
                     else Some(ReminderReply(row.id, row.data.patientId, row.data.message, row.data.scheduledTime,
                                             Pending, if outcome.Sent? then "sent" else "failed")))
      ensures old(ReminderAccepted(request, fromIsoFormat)) ==>
        var patient := Find(old(patients), request.patientId.value).value;
        sms == Some(SmsRequest(patient.phoneNumber,
          SmsHandler.FormatAppointmentMessage(patient.name, request.scheduledTime.value, request.message.value,
                                              fromIsoFormat).value))
      ensures adminId == old(adminId) && admins == old(admins) && patients == old(patients)
      ensures nextAdminId == old(nextAdminId) && nextPatientId == old(nextPatientId)
    {
      var guard := AdminRequired(adminId);
      if guard.Some? {
        return guard.value, None, None;
      }
      var patientId := Get(request.patientId);
      var message := Get(request.message);
      var scheduledTime := Get(request.scheduledTime);
      if !TruthyId(patientId) || !Truthy(message) || !Truthy(scheduledTime) {
        return BadRequest, None, None;
      }
      if !InInt64(patientId.value) {
        return ServerError, None, None;
      }
      var patient := Find(patients, patientId.value);
      if patient.None? {
        return NotFound, None, None;
      }
      var parsed := fromIsoFormat(ReplaceZulu(scheduledTime.value));
      if parsed.None? {
        return ServerError, None, None;
      }
      var row := AddReminder(Reminder(patientId.value, message.value, parsed.value, Pending, now));
      var text := SmsHandler.FormatAppointmentMessage(patient.value.name, scheduledTime.value, message.value,
                                                     fromIsoFormat);
      sms := Some(SmsRequest(patient.value.phoneNumber, text.value));
      if outcome.Raised? {
        return ServerError, None, sms;
      }
      var smsStatus := if outcome.Sent? then "sent" else "failed";
      reply := Some(ReminderReply(row.id, row.data.patientId, row.data.message, row.data.scheduledTime,
                                  row.data.status, smsStatus));
      code := Ok;
    }

    /** `GET /api/reminders?date=YYYY-MM-DD`: the admin check, then the listing query. */
    function GetReminders(date: Option<string>, strptime: Parser): (r: Listing)
      reads this
      ensures adminId.None? ==> r == Rejected(Unauthorized)
      ensures adminId.Some? ==> r == ListReminders(patients, reminders, date, strptime)
    {
      match AdminRequired(adminId)
      case Some(denied) => Rejected(denied)
      case None => ListReminders(patients, reminders, date, strptime)
    }

    /** `DELETE /api/reminders/<id>`. The `<int:…>` route passes only non-negative ids.
        Requires the admin session. An unknown id, or one beyond SQLite's 64-bit integers,
        makes `get_or_404` raise, and the catch-all answers 500; otherwise exactly that
        reminder is removed. */
    method DeleteReminder(reminderId: nat) returns (code: int)
      requires Valid()
      modifies this
      ensures Valid()
      ensures code == (
        if old(adminId).None? then Unauthorized
        else if reminderId > MaxInt64 then ServerError
        else if Find(old(reminders), reminderId).None? then ServerError
        else Ok)
      ensures code == Ok ==>
        reminders == Delete(old(reminders), reminderId) && |reminders| == |old(reminders)| - 1
      ensures code != Ok ==> reminders == old(reminders)
      ensures adminId == old(adminId) && admins == old(admins) && patients == old(patients)
      ensures nextAdminId == old(nextAdminId) && nextPatientId == old(nextPatientId)
      ensures nextReminderId == old(nextReminderId)
    {
      var guard := AdminRequired(adminId);
      if guard.Some? {
        return guard.value;
      }
      if reminderId > MaxInt64 || Find(reminders, reminderId).None? {
        return ServerError;
      }
      ghost var before := reminders;
      DeleteExisting(reminders, nextReminderId, reminderId);
      reminders := Delete(reminders, reminderId);
      forall k | 0 <= k < |reminders| ensures HasId(patients, reminders[k].data.patientId) {
        DeleteKeepsRows(before, reminderId, k);
      }
      return Ok;
    }
  }
}
