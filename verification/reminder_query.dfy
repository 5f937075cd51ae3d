/** The query behind `get_reminders`: reminders joined with their patient, optionally
    restricted to one calendar day, ordered by scheduled time ascending. */
module ReminderQuery {
  import opened Wrappers
  import opened Timestamps
  import opened Table
  import opened Models

  /** One entry of the response: the reminder's fields and a summary of its patient. */
  datatype ReminderView = ReminderView(id: int, patientId: int, patientName: string, patientPhone: string,
                                       message: string, scheduledTime: Instant, status: string,
                                       createdAt: Instant)

  /** Inclusive bounds on `scheduled_time`. */
  datatype Bounds = Bounds(lo: Instant, hi: Instant)

  predicate InBounds(b: Option<Bounds>, t: Instant)
  {
    b.None? || b.value.lo <= t <= b.value.hi
  }

  /** A reminder joined with its patient; `None` when the patient is missing (inner join). */
  function Joined(patients: Table<Patient>, row: Row<Reminder>): (r: Option<ReminderView>)
    ensures r.Some? <==> HasId(patients, row.data.patientId)
    ensures r.Some? ==> r.value.id == row.id && r.value.scheduledTime == row.data.scheduledTime
    ensures r.Some? ==>
      && r.value.patientId == row.data.patientId && r.value.message == row.data.message
      && r.value.status == row.data.status && r.value.createdAt == row.data.createdAt
    ensures r.Some? ==>
      (exists p :: Row(row.data.patientId, p) in patients
         && p.name == r.value.patientName && p.phoneNumber == r.value.patientPhone)
  {
    match Find(patients, row.data.patientId)
    case None => None
    case Some(p) =>
      Some(ReminderView(row.id, row.data.patientId, p.name, p.phoneNumber, row.data.message,
                        row.data.scheduledTime, row.data.status, row.data.createdAt))
  }

  /** `Reminder.query.join(Patient)` with the optional `filter(...)`, in table order. */
  function Select(patients: Table<Patient>, reminders: Table<Reminder>, b: Option<Bounds>): (r: seq<ReminderView>)
    ensures |r| <= |reminders|
    ensures forall v :: v in r ==>
      exists k :: 0 <= k < |reminders| && Joined(patients, reminders[k]) == Some(v) && InBounds(b, v.scheduledTime)
    ensures forall k ::
      (0 <= k < |reminders| && Joined(patients, reminders[k]).Some? && InBounds(b, reminders[k].data.scheduledTime))
      ==> Joined(patients, reminders[k]).value in r
  {
    if reminders == [] then []
    else
      assert forall k :: 1 <= k < |reminders| ==> reminders[k] == reminders[1..][k - 1];
      var rest := Select(patients, reminders[1..], b);
      match Joined(patients, reminders[0])
      case None => rest
      case Some(v) => if InBounds(b, v.scheduledTime) then [v] + rest else rest
  }

  /** With every reminder's patient present and no filter, the join keeps every reminder. */
  lemma {:induction false} SelectAll(patients: Table<Patient>, reminders: Table<Reminder>)
    requires RemindersReferencePatients(patients, reminders)
    ensures |Select(patients, reminders, None)| == |reminders|
  {
    if reminders != [] {
      assert forall k :: 0 <= k < |reminders[1..]| ==> reminders[1..][k] == reminders[k + 1];
      SelectAll(patients, reminders[1..]);
    }
  }

  // ----- `order_by(Reminder.scheduled_time.asc())` -----

  ghost predicate SortedByTime(s: seq<ReminderView>)
  {
    forall i, j :: 0 <= i < j < |s| ==> s[i].scheduledTime <= s[j].scheduledTime
  }

  /** Putting a row before a sorted sequence whose first row is no earlier keeps it sorted. */
  lemma PrependSorted(x: ReminderView, s: seq<ReminderView>)
    requires SortedByTime(s)
    requires s != [] ==> x.scheduledTime <= s[0].scheduledTime
    ensures SortedByTime([x] + s)
  {
    var r := [x] + s;
    forall i, j | 0 <= i < j < |r| ensures r[i].scheduledTime <= r[j].scheduledTime {
      if i == 0 && j > 1 {
        assert s[0].scheduledTime <= s[j - 1].scheduledTime;
      }
    }
  }

  /** Inserts a row into a sorted sequence before the first row that is not earlier. */
  function InsertByTime(v: ReminderView, s: seq<ReminderView>): (r: seq<ReminderView>)
    requires SortedByTime(s)
    ensures SortedByTime(r)
    ensures multiset(r) == multiset(s) + multiset{v}
    ensures r[0] == v || (s != [] && r[0] == s[0])
  {
    if s == [] || v.scheduledTime <= s[0].scheduledTime then
      PrependSorted(v, s);
      [v] + s
    else
      assert SortedByTime(s[1..]) by {
        forall i, j | 0 <= i < j < |s[1..]| ensures s[1..][i].scheduledTime <= s[1..][j].scheduledTime {
          assert s[1..][i] == s[i + 1] && s[1..][j] == s[j + 1];
        }
      }
      var rest := InsertByTime(v, s[1..]);
      assert |s| > 1 ==> s[0].scheduledTime <= s[1].scheduledTime;
      PrependSorted(s[0], rest);
      assert s == [s[0]] + s[1..];
      [s[0]] + rest
  }

  /** The rows in ascending order of scheduled time, as a permutation of the input. Rows
      with equal times keep no particular order in the database; here they come out in
      table order. */
  function SortByTime(s: seq<ReminderView>): (r: seq<ReminderView>)
    ensures SortedByTime(r)
    ensures multiset(r) == multiset(s)
  {
    if s == [] then []
    else
      assert s == [s[0]] + s[1..];
      InsertByTime(s[0], SortByTime(s[1..]))
  }

  // ----- The handler's query -----

  /** The date filter of a request: none, one calendar day, or a malformed date. */
  datatype DateFilter = NoFilter | Day(bounds: Bounds) | MalformedDate

  /** `request.args.get('date')`: an absent or empty date means no filter; otherwise the
      date is parsed with `strptime(date, '%Y-%m-%d')` and widened to its whole day. */
  function FilterFor(date: Option<string>, strptime: Parser): (f: DateFilter)
    ensures f.NoFilter? <==> date.None? || date.value == ""
    ensures f.MalformedDate? <==> date.Some? && date.value != "" && strptime(date.value).None?
    ensures f.Day? ==> f.bounds == Bounds(StartOfDay(strptime(date.value).value), EndOfDay(strptime(date.value).value))
  {
    if date.None? || date.value == "" then NoFilter
    else
      match strptime(date.value)
      case None => MalformedDate
      case Some(d) => Day(Bounds(StartOfDay(d), EndOfDay(d)))
  }

  /** The response of `get_reminders` once the admin check has passed. */
  datatype Listing = Listed(count: nat, rows: seq<ReminderView>) | Rejected(code: int)

  /** A malformed date is rejected with 400; otherwise the response lists the selected
      reminders sorted by scheduled time ascending, with `count` equal to their number. */
  function ListReminders(patients: Table<Patient>, reminders: Table<Reminder>, date: Option<string>,
                         strptime: Parser): (r: Listing)
    ensures r.Rejected? <==> FilterFor(date, strptime).MalformedDate?
    ensures r.Rejected? ==> r.code == 400
    ensures r.Listed? ==> r.count == |r.rows| && SortedByTime(r.rows)
    ensures r.Listed? ==>
      multiset(r.rows) == multiset(Select(patients, reminders,
        if FilterFor(date, strptime).Day? then Some(FilterFor(date, strptime).bounds) else None))
  {
    match FilterFor(date, strptime)
    case MalformedDate => Rejected(400)
    case NoFilter =>
      var rows := SortByTime(Select(patients, reminders, None));
      Listed(|rows|, rows)
    case Day(b) =>
      var rows := SortByTime(Select(patients, reminders, Some(b)));
      Listed(|rows|, rows)
  }

  /** With a well-formed date, the listing holds exactly the (joined) reminders scheduled on
      that calendar day: midnight and 23:59:59.999999 are both included, the neighbouring
      days are not. */
  lemma ListedOnDay(patients: Table<Patient>, reminders: Table<Reminder>, date: string, strptime: Parser,
                    v: ReminderView)
    requires date != "" && strptime(date).Some?
    ensures ListReminders(patients, reminders, Some(date), strptime).Listed?
    ensures v in ListReminders(patients, reminders, Some(date), strptime).rows <==>
      exists k :: 0 <= k < |reminders| && Joined(patients, reminders[k]) == Some(v)
        && DayOf(v.scheduledTime) == DayOf(strptime(date).value)
  {
    var d := strptime(date).value;
    var b := Bounds(StartOfDay(d), EndOfDay(d));
    var rows := ListReminders(patients, reminders, Some(date), strptime).rows;
    assert v in rows <==> v in Select(patients, reminders, Some(b)) by {
      assert v in rows <==> v in multiset(rows);
    }
    WithinDayIff(d, v.scheduledTime);
  }

  // ----- Each reminder is listed once -----

  /** No two entries carry the same reminder id. */
  ghost predicate DistinctIds(s: seq<ReminderView>)
  {
    forall i, j :: 0 <= i < j < |s| ==> s[i].id != s[j].id
  }

  /** The reminder ids a sequence of entries carries. */
  ghost function IdsOf(s: seq<ReminderView>): set<int>
  {
    set v | v in s :: v.id
  }

  /** Entries in strictly increasing order of reminder id. */
  ghost predicate IncreasingIds(s: seq<ReminderView>)
  {
    forall i, j :: 0 <= i < j < |s| ==> s[i].id < s[j].id
  }

  /** Putting an entry with a smaller id than all others in front keeps the ids increasing. */
  lemma PrependIncreasing(v: ReminderView, s: seq<ReminderView>)
    requires IncreasingIds(s)
    requires forall w :: w in s ==> v.id < w.id
    ensures IncreasingIds([v] + s)
  {
    var r := [v] + s;
    forall i, j | 0 <= i < j < |r| ensures r[i].id < r[j].id {
      assert r[j] == s[j - 1];
      if i > 0 {
        assert r[i] == s[i - 1];
      }
    }
  }

  /** The join walks the reminder table in key order, so under increasing primary keys its
      entries have strictly increasing ids: no reminder is selected twice. */
  lemma {:induction false} SelectIncreasing(patients: Table<Patient>, reminders: Table<Reminder>, b: Option<Bounds>)
    requires Increasing(reminders)
    ensures IncreasingIds(Select(patients, reminders, b))
  {
    if reminders != [] {
      var tail := reminders[1..];
      IncreasingTail(reminders);
      SelectIncreasing(patients, tail, b);
      var rest := Select(patients, tail, b);
      forall v | v in rest ensures reminders[0].id < v.id {
        var k :| 0 <= k < |tail| && Joined(patients, tail[k]) == Some(v) && InBounds(b, v.scheduledTime);
      }
      match Joined(patients, reminders[0])
      case None =>
      case Some(v) =>
        if InBounds(b, v.scheduledTime) {
          PrependIncreasing(v, rest);
        }
    }
  }

  /** What distinct ids leave of the tail of a sequence. */
  lemma DistinctTail(s: seq<ReminderView>)
    requires DistinctIds(s) && s != []
    ensures DistinctIds(s[1..])
    ensures forall v :: v in s[1..] ==> v.id != s[0].id
  {
    forall i, j | 0 <= i < j < |s[1..]| ensures s[1..][i].id != s[1..][j].id {
      assert s[1..][i] == s[i + 1] && s[1..][j] == s[j + 1];
    }
  }

  /** With distinct ids an entry occurs at most once. */
  lemma {:induction false} DistinctOnce(s: seq<ReminderView>, v: ReminderView)
    requires DistinctIds(s)
    ensures multiset(s)[v] <= 1
  {
    if s != [] {
      assert s == [s[0]] + s[1..];
      DistinctTail(s);
      DistinctOnce(s[1..], v);
    }
  }

  /** An entry found at two positions is counted twice. */
  lemma TwiceCounted(s: seq<ReminderView>, i: int, j: int)
    requires 0 <= i < j < |s|
    ensures s[i] == s[j] ==> multiset(s)[s[i]] >= 2
  {
    assert s == s[..j] + s[j..];
    assert s[i] == s[..j][i] && s[j] == s[j..][0];
  }

  /** Reordering entries keeps their ids distinct. */
  lemma DistinctPermutation(a: seq<ReminderView>, b: seq<ReminderView>)
    requires multiset(a) == multiset(b) && DistinctIds(b)
    ensures DistinctIds(a)
  {
    forall i, j | 0 <= i < j < |a| ensures a[i].id != a[j].id {
      DistinctOnce(b, a[i]);
      TwiceCounted(a, i, j);
      assert a[i] != a[j];
      assert a[i] in multiset(b) && a[j] in multiset(b);
      var p :| 0 <= p < |b| && b[p] == a[i];
      var q :| 0 <= q < |b| && b[q] == a[j];
      assert p != q;
    }
  }

  /** With distinct ids a sequence is as long as its set of ids. */
  lemma {:induction false} DistinctCount(s: seq<ReminderView>)
    requires DistinctIds(s)
    ensures |s| == |IdsOf(s)|
  {
    if s != [] {
      DistinctTail(s);
      DistinctCount(s[1..]);
      assert s == [s[0]] + s[1..];
      assert IdsOf(s) == {s[0].id} + IdsOf(s[1..]);
    }
  }

  /** With a valid date each reminder of that day appears once, so `count` is the number of
      reminders scheduled on that calendar day whose patient exists. */
  lemma ListedOnceOnDay(patients: Table<Patient>, reminders: Table<Reminder>, date: string, strptime: Parser)
    requires Increasing(reminders)
    requires date != "" && strptime(date).Some?
    ensures ListReminders(patients, reminders, Some(date), strptime).Listed?
    ensures DistinctIds(ListReminders(patients, reminders, Some(date), strptime).rows)
    ensures ListReminders(patients, reminders, Some(date), strptime).count ==
      |set k | 0 <= k < |reminders| && Joined(patients, reminders[k]).Some?
                 && DayOf(reminders[k].data.scheduledTime) == DayOf(strptime(date).value)
               :: reminders[k].id|
  {
    var d := strptime(date).value;
    var listing := ListReminders(patients, reminders, Some(date), strptime);
    var rows := listing.rows;
    var selected := Select(patients, reminders, Some(Bounds(StartOfDay(d), EndOfDay(d))));
    SelectIncreasing(patients, reminders, Some(Bounds(StartOfDay(d), EndOfDay(d))));
    DistinctPermutation(rows, selected);
    DistinctCount(rows);
    var onDay := set k | 0 <= k < |reminders| && Joined(patients, reminders[k]).Some?
                           && DayOf(reminders[k].data.scheduledTime) == DayOf(d)
                         :: reminders[k].id;
    forall x | x in IdsOf(rows) ensures x in onDay {
      var v :| v in rows && v.id == x;
      ListedOnDay(patients, reminders, date, strptime, v);
      var k :| 0 <= k < |reminders| && Joined(patients, reminders[k]) == Some(v) && DayOf(v.scheduledTime) == DayOf(d);
    }
    forall x | x in onDay ensures x in IdsOf(rows) {
      var k :| 0 <= k < |reminders| && Joined(patients, reminders[k]).Some?
                 && DayOf(reminders[k].data.scheduledTime) == DayOf(d) && reminders[k].id == x;
      ListedOnDay(patients, reminders, date, strptime, Joined(patients, reminders[k]).value);
    }
    assert IdsOf(rows) == onDay;
  }

  /** Without a date every reminder is listed, given that every reminder's patient exists. */
  lemma ListedWithoutDate(patients: Table<Patient>, reminders: Table<Reminder>, strptime: Parser)
    requires RemindersReferencePatients(patients, reminders)
    ensures ListReminders(patients, reminders, None, strptime).Listed?
    ensures ListReminders(patients, reminders, None, strptime).count == |reminders|
  {
    SelectAll(patients, reminders);
    var rows := ListReminders(patients, reminders, None, strptime).rows;
    assert |multiset(rows)| == |multiset(Select(patients, reminders, None))|;
  }
}
