# Appointment reminder service: a verified model

This project is a Dafny model of the core of a small dental-practice reminder service.
The service is a web application. An administrator logs in, keeps a table of patients,
and schedules appointment reminders for them. Each new reminder is stored and
announced to the patient by SMS.

The model covers two parts of the service.

- **The request handlers (`app.py`).**
  - `App.Server` is a class holding the admin session (`adminId`) and three in-memory
    tables: admins, patients and reminders. Each table is a sequence of rows with
    strictly increasing integer ids, plus a counter for the next fresh id.
  - Every handler that changes state is a method. Its postcondition gives the exact
    status code as a function of the request and the old state, then the exact new
    state. Every error path leaves the tables as they were, with one exception:
    `create_reminder` commits the reminder before it sends the SMS, so an exception
    from the SMS transport gives a 500 with the reminder kept.
  - The methods preserve an invariant, `Server.Valid`:
    - the tables are well formed;
    - admin usernames are unique;
    - the session names an existing admin;
    - every reminder names an existing patient.
  - `get_reminders` only reads state, so it is a function over the tables. Its query
    (join, optional day filter, ascending order) is in module `ReminderQuery`.
- **The appointment message (`utils/sms_handler.py`).**
  - `SmsHandler.FormatAppointmentMessage` builds the reminder text.
  - The `%B %d, %Y at %I:%M %p` rendering of the appointment time is modelled in full
    in module `Strftime`, over the proleptic Gregorian calendar of module `Timestamps`.
  - The rendering has a reader as its partner. Reading a rendered time gives back the
    calendar date, the hour and the minute.

Timestamps are wall-clock microseconds counted from 0001-01-01 00:00. This makes the
day bounds of the date filter plain arithmetic. Other inputs are parameters:
- `datetime.fromisoformat` and `datetime.strptime(…, '%Y-%m-%d')` are partial functions
  `string -> Option<Instant>`, where `None` stands for the `ValueError` they raise;
- the outcome of sending the SMS is one of three cases: sent, failed as reported by
  the transport, or an exception the transport lets through;
- the clock reading stored in `created_at` is a parameter `now`.

The model follows the code as written. In particular:
- an offset in `scheduled_time` is not converted to UTC; the parsed wall-clock value is
  stored as it is;
- there is no check that a reminder lies in the future;
- creating a reminder answers 200, not 201;
- deleting a patient does not delete their reminders. The ORM's default on deleting a
  parent is to set the children's `patient_id` to NULL. That column is NOT NULL, so
  the commit fails, is rolled back and is answered 500. A patient with reminders
  therefore cannot be deleted, and referential integrity holds as an invariant;
- `delete_patient` and `delete_reminder` answer 500, not 404, for an unknown id: the
  `NotFound` raised by `get_or_404` is caught by the handler's `except Exception`;
- a `patient_id` or route id outside SQLite's signed 64-bit integers makes the lookup
  raise, and the catch-all answers 500.

## Model

| member | source | states |
|---|---|---|
| App.AdminRequired | app.py:65-71 | Without an `admin_id` in the session the result is the 401 answer, and the wrapped handler runs only when the session holds one. |
| App.Truthy | app.py:87 | The truthiness test on an optional string: `None` and the empty string fail it, any other string passes. |
| App.TruthyId | app.py:185 | The truthiness test on an optional integer id: `None` and `0` fail it, any other integer passes. |
| App.Get | app.py:84-85 | `data.get(key)` gives a value exactly when the key is present with a non-null value, and then that value. |
| App.AdminIdFor | app.py:91 | The username lookup succeeds exactly when some admin row holds the username, and the id it returns belongs to such a row. |
| App.AdminIdForUnique | app.py:39 | With unique usernames, looking up the username of any row finds that row's id. |
| App.AdminInsertNew | app.py:91-96 | Adding an admin whose username no row holds keeps the table well formed and the usernames unique, and the lookup then finds the new row. |
| App.Server.constructor | app.py:37-62 | A fresh service has no session and empty tables, and satisfies the invariant. |
| App.Server.Login | app.py:80-102 | A missing, null or empty username or password is a 400. The fixed credentials give 200: they reuse the existing admin row, or add exactly one when none holds the username, and the session then names that row. Any other pair is a 401 and changes neither the session nor the admins. Patients and reminders are never touched. |
| App.Server.AddReminder | app.py:199-200 | Adding a reminder whose patient exists appends it under the next id, advances the counter, and keeps the invariant: tables well formed, unique usernames, the session admin present, every reminder referencing a patient. |
| App.Server.Logout | app.py:104-107 | The session ends without an admin id and the answer is 200, whether or not one was there before. The invariant is kept. |
| App.Server.CreatePatient | app.py:127-159 | Checks run in order: no session gives 401; an absent `name` or `phone_number` key gives 400 (an empty string is accepted); a null value gives 500 with nothing stored. Otherwise exactly one patient is appended with a fresh id and `email` taken from `data.get`, and the answer is 201. Every other table is unchanged. |
| App.Server.DeletePatient | app.py:161-174 | The route passes only non-negative ids. No session gives 401. An unknown id, or one beyond SQLite's 64-bit integers, gives 500. A patient with reminders gives 500. In all these cases the tables are unchanged. Otherwise exactly that patient is removed, the table shrinks by one, and the reminders still all reference existing patients. |
| App.Server.CreateReminder | app.py:176-226 | Checks run in order: 401 for no session; 400 for a falsy `patient_id`, `message` or `scheduled_time`; 500 for a `patient_id` beyond SQLite's 64-bit integers; 404 for an unknown patient; 500 when the time does not parse once every `Z` is `+00:00`. On each of these nothing is stored and no SMS is attempted. Otherwise exactly one `pending` reminder with the parsed time is appended, and only then does the SMS go to the patient's phone with the formatted message. The reminder stays whatever the SMS outcome. A sent or reported-failed SMS gives 200 with `sms_status` `sent` iff it was sent. An exception from the transport gives 500 with the reminder kept. |
| App.Server.GetReminders | app.py:228-274 | Without a session the answer is 401; with one it is the listing of `ListReminders` over the current tables. |
| App.Server.DeleteReminder | app.py:276-289 | The route passes only non-negative ids. No session gives 401, and an unknown id or one beyond SQLite's 64-bit integers gives 500, all leaving the tables unchanged. Otherwise exactly that reminder is removed, the table shrinks by one, and nothing else changes. |
| Models.RemindersOf | app.py:54 | A patient's reminders are exactly the rows of the reminder table whose foreign key names the patient, and there are none exactly when no reminder names the patient. |
| Table.Find | app.py:165 | `get`/`get_or_404` finds a row exactly when one with that id exists, and returns that row's data. |
| Table.FindUnique | app.py:189 | With increasing ids, looking up the id of any row returns that row's data. |
| Table.Insert | app.py:143-144 | Adding a row under a fresh id keeps the ids increasing and below the next counter. The old rows come first, unchanged, and the fresh id was not in use before. |
| Table.InsertKeeps | app.py:199-200 | Every id present before an insertion is still present after it. |
| Table.Delete | app.py:166-167 | After deleting an id no row with that id is left, and the table does not grow. |
| Table.DeleteAt | app.py:281-282 | With increasing ids, deleting the id of row `i` yields the table with exactly row `i` removed. |
| Table.DeleteAbsent | app.py:280 | Deleting an id that no row has leaves the table unchanged. |
| Table.DeleteExisting | app.py:166-167 | Deleting an existing id keeps the table well formed and removes exactly one row. |
| Table.DeleteKeepsOthers | app.py:166-167 | Every other id survives a deletion. |
| Table.DeleteKeepsRows | app.py:281-282 | Every row left after a deletion was a row before it. |
| ReminderQuery.Joined | app.py:236-271 | The inner join yields an entry exactly when the reminder's patient exists. The entry carries the reminder's id, patient id, message, scheduled time, status and creation time, and the name and phone number of the patient row with that id. |
| ReminderQuery.InBounds | app.py:247-250 | A scheduled time passes the filter when there are no bounds, or when it lies between them, both ends included. |
| ReminderQuery.Select | app.py:236-250 | Each selected entry is the join of some reminder within the bounds, and every joined reminder within the bounds is selected. |
| ReminderQuery.SelectAll | app.py:236 | When every reminder's patient exists, the unfiltered join keeps every reminder. |
| ReminderQuery.SelectIncreasing | app.py:236-250 | Under increasing primary keys the join lists its entries in strictly increasing reminder id, so no reminder is selected twice. |
| ReminderQuery.InsertByTime | app.py:255 | Inserting into a list sorted by scheduled time keeps it sorted and adds exactly that entry. |
| ReminderQuery.SortByTime | app.py:255 | The result is sorted ascending by scheduled time and is a permutation of the input. |
| ReminderQuery.FilterFor | app.py:233-252 | An absent or empty date means no filter. A date that does not parse is marked malformed. Otherwise the bounds run from the parsed day's midnight to its last microsecond. |
| ReminderQuery.ListReminders | app.py:230-272 | The answer is 400 exactly for a malformed date. Otherwise the rows are sorted ascending, `count` equals their number, and they are a permutation of the selected joined reminders. |
| ReminderQuery.ListedOnDay | app.py:239-255 | With a valid date, an entry is listed if and only if it is the join of a reminder scheduled on that calendar day. Both ends of the day are included. |
| ReminderQuery.ListedOnceOnDay | app.py:239-259 | With a valid date the listed entries carry pairwise distinct ids. `count` equals the number of distinct reminders scheduled on that day whose patient exists. |
| ReminderQuery.ListedWithoutDate | app.py:233-259 | Without a date every reminder is listed, and `count` equals the number of reminders, given that each reminder's patient exists. |
| Timestamps.StartOfDay | app.py:244 | Midnight of a timestamp's day is at or before it, less than a day before it, and falls on a day boundary. |
| Timestamps.EndOfDay | app.py:245 | 23:59:59.999999 of a timestamp's day is at or after it, and one microsecond short of a whole day after midnight. |
| Timestamps.WithinDayIff | app.py:247-250 | A time lies within a day's inclusive bounds if and only if it falls on that calendar day. |
| Timestamps.HourOf | utils/sms_handler.py:40 | The hour of a timestamp is below 24. |
| Timestamps.MinuteOf | utils/sms_handler.py:40 | The minute of a timestamp is below 60. |
| Timestamps.ClockOfDay | utils/sms_handler.py:40 | The time of day is hour, minute and the rest below a minute. |
| Timestamps.DateOf | utils/sms_handler.py:40 | Every day number is a valid Gregorian date whose day number is that number. |
| Timestamps.DateOfDayNumber | utils/sms_handler.py:40 | Converting a valid date to its day number and back gives the date. |
| Timestamps.DayNumberInjective | utils/sms_handler.py:40 | Two valid dates with the same day number are the same date. |
| Timestamps.ReplaceZulu | utils/sms_handler.py:39 | After replacing `Z` by `+00:00` no `Z` is left, and a text without `Z` is unchanged. |
| Timestamps.ReplaceZuluAppend | app.py:197 | The replacement works piecewise: replacing in a concatenation is concatenating the replacements. |
| Timestamps.ZuluSuffix | app.py:197 | A trailing `Z` becomes exactly `+00:00`. |
| Strftime.TwoDigits | utils/sms_handler.py:40 | `%d`, `%I` and `%M` give exactly two decimal digits whose value is the number. |
| Strftime.Decimal | utils/sms_handler.py:40 | `%Y` gives a non-empty run of decimal digits whose value is the year. |
| Strftime.DecimalWidth | utils/sms_handler.py:40 | Years 1000 to 9999 are written with exactly four digits. |
| Strftime.Hour12 | utils/sms_handler.py:40 | The 12-hour clock hour lies in 1 to 12 and agrees with the hour modulo 12. |
| Strftime.Meridiem | utils/sms_handler.py:40 | `%p` is `AM` for hours 0 to 11 and `PM` for hours 12 to 23. |
| Strftime.FormatClock | utils/sms_handler.py:40 | The ` at %I:%M %p` part is always 12 characters: ` at `, two digits whose value is the 12-hour clock hour, a colon, two digits whose value is the minute, a space and the AM/PM marker. |
| Strftime.FormatDate | utils/sms_handler.py:40 | `%B %d, %Y` is the month's full name, a space, two digits whose value is the day, a comma and a space, and digits whose value is the year. |
| Strftime.FormatAppointmentTime | utils/sms_handler.py:40 | `strftime('%B %d, %Y at %I:%M %p')` of an instant; what its text means is stated by `AppointmentTimeLayout` and `ReadAppointmentTimeRoundTrip`. |
| Strftime.AppointmentTimeLayout | utils/sms_handler.py:40 | The rendering of an instant is the date part of its calendar day followed by the clock part of its hour and minute, which is always the last 12 characters. |
| Strftime.MonthNumberOf | utils/sms_handler.py:40 | Each full month name read back gives its month number. |
| Strftime.ReadDateRoundTrip | utils/sms_handler.py:40 | Reading `%B %d, %Y` back gives the date it was made from. |
| Strftime.ReadClockRoundTrip | utils/sms_handler.py:40 | Reading ` at %I:%M %p` back gives the hour and minute it was made from. |
| Strftime.ReadAppointmentTimeRoundTrip | utils/sms_handler.py:40 | Reading a rendered appointment time back gives its calendar date, hour and minute. |
| Strftime.FormatAppointmentTimeSameMinute | utils/sms_handler.py:40 | Two times that render alike fall in the same minute, so the rendering loses only seconds and below. |
| SmsHandler.Greeting | utils/sms_handler.py:42 | The opening line of the message; its layout is stated by `MessagePieces`. |
| SmsHandler.ReminderSentence | utils/sms_handler.py:42 | The sentence around the formatted time; its layout is stated by `MessagePieces`. |
| SmsHandler.DetailsLine | utils/sms_handler.py:42 | The line carrying the caller's message; its layout is stated by `MessagePieces`. |
| SmsHandler.MessagePieces | utils/sms_handler.py:42 | The opening line holds the patient's name verbatim between `Hello ` and `,` followed by an empty line. The reminder sentence is the fixed opening words, the formatted time verbatim and a full stop. The details line is an empty line, `Details: ` and the message verbatim. |
| SmsHandler.Compose | utils/sms_handler.py:42 | The message starts with the greeting and the verbatim name. The reminder sentence follows directly. It ends with the details line and the signature. Its length is the sum of these parts, so nothing else is in it. |
| SmsHandler.FormatAppointmentMessage | utils/sms_handler.py:37-42 | The message exists exactly when the time parses once every `Z` is `+00:00`, and it is then the composition around the rendered parsed time. |
| SmsHandler.TimeInText | utils/sms_handler.py:42 | Whatever the time's text, it can be cut back out of the message between the sentence's opening words and its full stop. |
| SmsHandler.TimeInMessage | utils/sms_handler.py:37-42 | The rendered appointment time stands in the message between the sentence's opening words and its full stop. With `ReadAppointmentTimeRoundTrip`, the message thus tells the appointment's date, hour and minute. |

## Left out

- Flask routing, `request.json`, `jsonify`, CORS, configuration and the `/` page (app.py:1-30, 74-78) are glue. The model keeps only status codes and the response fields that carry data.
- Request bodies are JSON objects whose fields have the expected types: strings, and an integer `patient_id`. A body that is not an object, and a field of another JSON type, are not modelled. They do not all fail in the source. A `patient_id` given as a numeric string such as `"3"` finds patient 3, because SQLite converts the text, and the reminder is created. A truthy username that is not a string gets 401. A numeric `name` is stored with 201.
- Exception texts, error messages and the `print` on SMS failure are not modelled.
- Ids are fresh, taken from a counter per table. SQLite's reuse of the largest deleted id is not modelled, and neither is a table whose ids run past SQLite's 64-bit integers.
- `create_admin()` (app.py:325-331) runs only under `__main__` and inserts the admin row at start-up. The constructor starts from an empty database instead, and `Login` creates the row when it is missing. The model therefore covers both starting states: with the row and without it.
- Password hashing (`set_password`, `check_password`) is foreign code and is not modelled. The login decision is equality with the fixed pair, as in the source. The admin table keeps only usernames.
- The SMS transport (`send_sms`, an AWS SNS call) is an outcome parameter with three cases: sent, a reported `ClientError`, or an exception that `send_sms` does not catch. sms_service.py is not part of this model: nothing in the core uses it.
- `get_patients` and the `/api/test-sms` endpoint are outside the modelled core. They only read patients or forward to the transport.
- The background scheduler is started with no jobs and has no observable behaviour.
- `datetime.fromisoformat` and `strptime` are partial-function parameters. Their accepted syntax is not modelled, and neither are seconds or offsets beyond what the parsed wall-clock value carries.
- Column length limits (`String(100)`, `String(160)`, …) are declarations that SQLite does not enforce and no handler checks.
- Concurrency between requests and the transaction machinery are left out. Each handler either commits or leaves the tables as they were.
- Strftime.Decimal: `%Y` is written without padding, as the C library behind Python on Linux does. The four-digit form is proved only for years 1000 to 9999. Years below 1000 are not padded to four digits as some platforms would pad them.
- SmsHandler.TimeInMessage: it states that the rendered time stands in the message, and `Strftime.ReadAppointmentTimeRoundTrip` states the readback. The two are kept apart because one proof combining them is too costly for the solver.
- ReminderQuery.SortByTime: rows with equal scheduled times come out in table order. The database promises no order among them.
