/**
 * The attendance ledger (`attendanceController`): a table of
 * `{ id, user_id, time_in, time_out?, photo_url? }` rows in which an
 * employee clocks in once a day with a photo and later clocks that record
 * out, together with the read endpoints over it. The calendar day of an
 * instant is the ledger's `dayOf`; the clock is the `now` argument.
 */
module AttendanceLog {
  import opened Outcomes
  import opened Errors
  import Query
  import Envelope
  import Auth
  import Employees

  /** One row of `attendance_logs`; `createdAt` and `updatedAt` are the Sequelize timestamps. */
  datatype Attendance = Attendance(
    id: nat,
    userId: nat,
    timeIn: int,
    timeOut: Option<int>,
    photoUrl: Option<string>,
    createdAt: int,
    updatedAt: int)

  /** The message published on the "checkin-events" queue after a check-in. */
  datatype CheckInEvent = CheckInEvent(userId: nat, name: string, role: string, department: Option<string>, timeIn: int)

  // ---------------------------------------------------------------------------
  // Days

  /** The user has a record whose `time_in` falls on `day`. */
  predicate ClockedInOn(rows: seq<Attendance>, userId: nat, day: int, dayOf: int -> int) {
    exists i :: 0 <= i < |rows| && rows[i].userId == userId && dayOf(rows[i].timeIn) == day
  }

  /** The user has a record whose `time_out` falls on `day`. */
  predicate ClockedOutOn(rows: seq<Attendance>, userId: nat, day: int, dayOf: int -> int) {
    exists i :: 0 <= i < |rows| && rows[i].userId == userId && rows[i].timeOut.Some? && dayOf(rows[i].timeOut.value) == day
  }

  /** No user has two records with a `time_in` on the same day. */
  predicate OnePerDay(rows: seq<Attendance>, dayOf: int -> int) {
    forall i, j :: 0 <= i < j < |rows| && rows[i].userId == rows[j].userId ==> dayOf(rows[i].timeIn) != dayOf(rows[j].timeIn)
  }

  /** Row ids are below the next auto-increment value and pairwise distinct. */
  predicate Keyed(rows: seq<Attendance>, nextId: nat) {
    && (forall i :: 0 <= i < |rows| ==> rows[i].id < nextId)
    && (forall i, j :: 0 <= i < j < |rows| ==> rows[i].id != rows[j].id)
  }

  /** Appending a record for a user who has none on its day keeps one record per user and day. */
  lemma AppendKeepsOnePerDay(rows: seq<Attendance>, a: Attendance, dayOf: int -> int)
    requires OnePerDay(rows, dayOf)
    requires !ClockedInOn(rows, a.userId, dayOf(a.timeIn), dayOf)
    ensures OnePerDay(rows + [a], dayOf)
  {
    var s := rows + [a];
    forall i, j | 0 <= i < j < |s| && s[i].userId == s[j].userId
      ensures dayOf(s[i].timeIn) != dayOf(s[j].timeIn)
    {
      if j == |rows| {
        assert s[i] == rows[i];
      }
    }
  }

  /** Under one record per user and day, the user's record of a day is unique. */
  lemma TodayRecordUnique(rows: seq<Attendance>, dayOf: int -> int, userId: nat, day: int, i: nat, j: nat)
    requires OnePerDay(rows, dayOf)
    requires i < |rows| && rows[i].userId == userId && dayOf(rows[i].timeIn) == day
    requires j < |rows| && rows[j].userId == userId && dayOf(rows[j].timeIn) == day
    ensures i == j
  {
  }

  // ---------------------------------------------------------------------------
  // checkOut, on values

  /** `Attendance.findOne({ where: { id, user_id } })`: the caller's own record with that id. */
  function Owned(rows: seq<Attendance>, userId: nat, id: nat): (k: Option<nat>)
    ensures k.Some? ==> k.value < |rows| && rows[k.value].id == id && rows[k.value].userId == userId
    ensures k.None? <==> forall i :: 0 <= i < |rows| ==> !(rows[i].id == id && rows[i].userId == userId)
  {
    Query.First(rows, (a: Attendance) => a.id == id && a.userId == userId)
  }

  /** The record after `attendance.time_out = new Date(); attendance.save()`. */
  function CheckedOut(a: Attendance, now: int): (b: Attendance)
    ensures b.timeOut == Some(now) && b.updatedAt == now
    ensures b.(timeOut := a.timeOut, updatedAt := a.updatedAt) == a
  {
    a.(timeOut := Some(now), updatedAt := now)
  }

  /** Another user's record is not found, whatever its id. */
  lemma ForeignRecordNotFound(rows: seq<Attendance>, userId: nat, id: nat)
    requires forall i :: 0 <= i < |rows| && rows[i].id == id ==> rows[i].userId != userId
    ensures Owned(rows, userId, id).None?
  {
  }

  /**
   * After a successful check-out the same request finds the same record,
   * now with its `time_out` set, so a second check-out is always refused.
   */
  lemma SecondCheckOutFails(rows: seq<Attendance>, userId: nat, id: nat, now: int, k: nat)
    requires Owned(rows, userId, id) == Some(k) && rows[k].timeOut.None?
    ensures var after := rows[k := CheckedOut(rows[k], now)];
      Owned(after, userId, id) == Some(k) && after[k].timeOut.Some?
  {
    Query.FirstUpdate(rows, k, CheckedOut(rows[k], now), (a: Attendance) => a.id == id && a.userId == userId);
  }

  /** A check-out keeps the table's invariants: it touches neither ids nor `time_in`. */
  lemma CheckOutKeepsInvariants(rows: seq<Attendance>, nextId: nat, dayOf: int -> int, k: nat, now: int)
    requires Keyed(rows, nextId) && OnePerDay(rows, dayOf) && k < |rows|
    ensures var after := rows[k := CheckedOut(rows[k], now)];
      Keyed(after, nextId) && OnePerDay(after, dayOf)
  {
    var after := rows[k := CheckedOut(rows[k], now)];
    assert forall i :: 0 <= i < |rows| ==> after[i].id == rows[i].id && after[i].userId == rows[i].userId
                                           && after[i].timeIn == rows[i].timeIn;
  }

  // ---------------------------------------------------------------------------
  // The message queue

  /** The RabbitMQ channel: `ready` once `initRabbitMQ` has connected, with the messages sent so far. */
  class Channel {
    var ready: bool
    var published: seq<CheckInEvent>

    constructor (ready: bool)
      ensures this.ready == ready && published == []
    {
      this.ready := ready;
      published := [];
    }

    /** `publishCheckInEvent`: sends the event when the channel is ready, otherwise drops it with a warning. */
    method Publish(e: CheckInEvent)
      modifies this
      ensures ready == old(ready)
      ensures published == if ready then old(published) + [e] else old(published)
    {
      if !ready {
        return;
      }
      published := published + [e];
    }
  }

  // ---------------------------------------------------------------------------
  // The table

  /** The answer of `isPresenceToday`. */
  datatype Presence = Presence(isSubmitClockIn: bool, isSubmitClockOut: bool, idAttendance: Option<nat>)

  class Ledger {
    /** The calendar day ("YYYY-MM-DD" in Asia/Jakarta) an instant falls on. */
    const dayOf: int -> int
    var rows: seq<Attendance>
    var nextId: nat

    ghost predicate Valid()
      reads this
    {
      Keyed(rows, nextId) && OnePerDay(rows, dayOf)
    }

    constructor (dayOf: int -> int)
      ensures this.dayOf == dayOf && rows == [] && nextId == 1 && Valid()
    {
      this.dayOf := dayOf;
      rows := [];
      nextId := 1;
    }

    /**
     * `checkIn`: reading the uploaded file's name fails when no file came
     * with the request; a caller who already has a record with `time_in`
     * today is refused; otherwise one record is appended and the event is
     * handed to the queue.
     */
    method CheckIn(caller: Auth.Claims, file: Option<string>, now: int, channel: Channel) returns (r: Result<Attendance, AppError>)
      requires Valid()
      modifies this, channel
      ensures Valid()
      ensures channel.ready == old(channel.ready)
      ensures file.None? ==> r == Err(Unexpected(NullDereference))
      ensures file.Some? && ClockedInOn(old(rows), caller.id, dayOf(now), dayOf) ==>
                r == Err(ValidationError("You have already clocked in today"))
      ensures r.Ok? <==> file.Some? && !ClockedInOn(old(rows), caller.id, dayOf(now), dayOf)
      ensures r.Err? ==> rows == old(rows) && nextId == old(nextId) && channel.published == old(channel.published)
      ensures r.Ok? ==>
                && r.value == Attendance(old(nextId), caller.id, now, None, Some("/uploads/" + file.value), now, now)
                && rows == old(rows) + [r.value] && nextId == old(nextId) + 1
                && channel.published == old(channel.published)
                     + (if channel.ready then [CheckInEvent(caller.id, caller.name, caller.role, caller.department, now)] else [])
    {
      if file.None? {
        return Err(Unexpected(NullDereference));
      }
      var photoUrl := "/uploads/" + file.value;
      var day := dayOf;
      var today := day(now);
      var found := Query.First(rows, (a: Attendance) => a.userId == caller.id && day(a.timeIn) == today);
      if found.Some? {
        return Err(ValidationError("You have already clocked in today"));
      }
      var attendance := Attendance(nextId, caller.id, now, None, Some(photoUrl), now, now);
      AppendKeepsOnePerDay(rows, attendance, dayOf);
      rows := rows + [attendance];
      nextId := nextId + 1;
      channel.Publish(CheckInEvent(caller.id, caller.name, caller.role, caller.department, attendance.timeIn));
      return Ok(attendance);
    }

    /**
     * `checkOut`: only the caller's own record with that id is found; one
     * already checked out is refused; otherwise that record alone gets its
     * `time_out`. The day of the record is not checked.
     */
    method CheckOut(caller: Auth.Claims, id: nat, now: int) returns (r: Result<Attendance, AppError>)
      requires Valid()
      modifies this
      ensures Valid() && nextId == old(nextId)
      ensures Owned(old(rows), caller.id, id).None? ==> r == Err(ValidationError("Attendance not found"))
      ensures Owned(old(rows), caller.id, id).Some? && old(rows)[Owned(old(rows), caller.id, id).value].timeOut.Some? ==>
                r == Err(ValidationError("Attendance already checked out"))
      ensures r.Ok? <==> Owned(old(rows), caller.id, id).Some? && old(rows)[Owned(old(rows), caller.id, id).value].timeOut.None?
      ensures r.Err? ==> rows == old(rows)
      ensures r.Ok? ==> var k := Owned(old(rows), caller.id, id).value;
                r.value == CheckedOut(old(rows)[k], now) && rows == old(rows)[k := r.value]
    {
      var found := Owned(rows, caller.id, id);
      if found.None? {
        return Err(ValidationError("Attendance not found"));
      }
      var k := found.value;
      if rows[k].timeOut.Some? {
        return Err(ValidationError("Attendance already checked out"));
      }
      var attendance := CheckedOut(rows[k], now);
      CheckOutKeepsInvariants(rows, nextId, dayOf, k, now);
      rows := rows[k := attendance];
      return Ok(attendance);
    }

    /**
     * `isPresenceToday`: two independent lookups, one on `time_in` and one
     * on `time_out`; the id reported is that of the clock-in record found.
     */
    method IsPresenceToday(caller: Auth.Claims, now: int) returns (p: Presence)
      ensures p.isSubmitClockIn <==> ClockedInOn(rows, caller.id, dayOf(now), dayOf)
      ensures p.isSubmitClockOut <==> ClockedOutOn(rows, caller.id, dayOf(now), dayOf)
      ensures p.idAttendance.Some? <==> p.isSubmitClockIn
      ensures p.idAttendance.Some? ==> exists i :: 0 <= i < |rows| && rows[i].id == p.idAttendance.value
                                                   && rows[i].userId == caller.id && dayOf(rows[i].timeIn) == dayOf(now)
    {
      var day := dayOf;
      var today := day(now);
      var isSubmitClockIn: bool;
      var isSubmitClockOut: bool;
      var idAttendance: Option<nat> := None;
      var findSubmitClockIn := Query.First(rows, (a: Attendance) => a.userId == caller.id && day(a.timeIn) == today);
      var findSubmitClockOut := Query.First(rows, (a: Attendance) =>
                                  a.userId == caller.id && a.timeOut.Some? && day(a.timeOut.value) == today);
      if findSubmitClockIn.Some? {
        isSubmitClockIn := true;
        idAttendance := Some(rows[findSubmitClockIn.value].id);
      } else {
        isSubmitClockIn := false;
      }
      if findSubmitClockOut.Some? {
        isSubmitClockOut := true;
      } else {
        isSubmitClockOut := false;
      }
      return Presence(isSubmitClockIn, isSubmitClockOut, idAttendance);
    }
  }

  /**
   * With one record per user and day, the reported id names the caller's
   * only record of today.
   */
  lemma PresenceNamesTheRecord(rows: seq<Attendance>, dayOf: int -> int, userId: nat, today: int, nextId: nat, p: Presence)
    requires Keyed(rows, nextId) && OnePerDay(rows, dayOf)
    requires p.idAttendance.Some?
    requires exists i :: 0 <= i < |rows| && rows[i].id == p.idAttendance.value && rows[i].userId == userId && dayOf(rows[i].timeIn) == today
    ensures forall j :: 0 <= j < |rows| && rows[j].userId == userId && dayOf(rows[j].timeIn) == today ==> rows[j].id == p.idAttendance.value
  {
    var i :| 0 <= i < |rows| && rows[i].id == p.idAttendance.value && rows[i].userId == userId && dayOf(rows[i].timeIn) == today;
    forall j | 0 <= j < |rows| && rows[j].userId == userId && dayOf(rows[j].timeIn) == today
      ensures rows[j].id == p.idAttendance.value
    {
      TodayRecordUnique(rows, dayOf, userId, today, i, j);
    }
  }

  // ---------------------------------------------------------------------------
  // History

  function CreatedAt(a: Attendance): int { a.createdAt }

  /** `getOwnAttendances`: one page of the caller's records, newest first, and its meta block. */
  function OwnHistory(rows: seq<Attendance>, userId: nat, pageQ: Option<string>, limitQ: Option<string>)
    : (r: Result<Query.Page<Attendance>, AppError>)
    ensures r.Ok? <==> Query.QueryInt(pageQ, 1) > 0 && Query.QueryInt(limitQ, 10) > 0
    ensures r.Err? ==> r.error == Unexpected(InvalidQuery)
    ensures r.Ok? ==> r.value.meta.total == |Query.Filter(rows, (a: Attendance) => a.userId == userId)|
    ensures r.Ok? ==> |r.value.rows| <= r.value.meta.limit == Query.QueryInt(limitQ, 10)
    ensures r.Ok? ==> forall i :: 0 <= i < |r.value.rows| ==> r.value.rows[i] in rows && r.value.rows[i].userId == userId
    ensures r.Ok? ==> Query.SortedDesc(r.value.rows, CreatedAt)
    ensures r.Ok? ==> var page, limit := Query.QueryInt(pageQ, 1), Query.QueryInt(limitQ, 10);
      var own := Query.Newest(rows, (a: Attendance) => a.userId == userId, CreatedAt);
      && r.value.meta == Envelope.Meta(page, limit, Query.CeilDiv(|own|, limit), |own|)
      && r.value.rows == Query.Slice(own, Query.Offset(page, limit), limit)
  {
    var own := Query.Newest(rows, (a: Attendance) => a.userId == userId, CreatedAt);
    var r := Query.Paginate(own, pageQ, limitQ);
    if r.Ok? then
      var w := Query.Params(pageQ, limitQ);
      Query.PageMembers(own, w, (a: Attendance) => a in rows && a.userId == userId);
      Query.PageSorted(own, w, CreatedAt);
      r
    else r
  }

  /** A row of `getAllAttendances`: the record's own columns with the employee's number, name, email and department. */
  datatype History = History(
    id: nat,
    userId: nat,
    timeIn: int,
    timeOut: Option<int>,
    photoUrl: Option<string>,
    createdAt: int,
    updatedAt: int,
    noEmployee: string,
    name: Option<string>,
    email: Option<string>,
    department: Option<string>)

  /** The formatted row for a record and the employee the include joined to it. */
  function Joined(a: Attendance, u: Employees.User): History {
    History(a.id, a.userId, a.timeIn, a.timeOut, a.photoUrl, a.createdAt, a.updatedAt,
            u.noEmployee, u.name, u.email, u.department)
  }

  /**
   * `rows.map(...)` over a page: each record with the active employee the
   * include finds for its `user_id`; a record whose employee is missing or
   * soft-deleted has `User` null, and reading `User.no_employee` fails.
   */
  function JoinUsers(page: seq<Attendance>, users: seq<Employees.User>): (r: Result<seq<History>, AppError>)
    ensures r.Err? <==> exists i :: 0 <= i < |page| && Orphan(page[i], users)
    ensures r.Err? ==> r.error == Unexpected(NullDereference)
    ensures r.Ok? ==> |r.value| == |page|
    ensures r.Ok? ==> forall i :: 0 <= i < |page| ==> JoinedWithEmployee(r.value[i], page[i], users)
  {
    if page == [] then Ok([])
    else
      var head := Employees.FindActive(users, page[0].userId);
      var rest := JoinUsers(page[1..], users);
      OrphanShift(page, users);
      if head.None? then Err(Unexpected(NullDereference))
      else if rest.Err? then rest
      else
        var hs := [Joined(page[0], users[head.value])] + rest.value;
        assert JoinedWithEmployee(hs[0], page[0], users);
        assert forall i :: 1 <= i < |page| ==> page[i] == page[1..][i - 1] && hs[i] == rest.value[i - 1];
        Ok(hs)
  }

  /** A record whose employee the include does not find: missing or soft-deleted. */
  predicate Orphan(a: Attendance, users: seq<Employees.User>) {
    Employees.FindActive(users, a.userId).None?
  }

  lemma OrphanShift(page: seq<Attendance>, users: seq<Employees.User>)
    requires page != []
    ensures (exists i :: 0 <= i < |page| && Orphan(page[i], users))
            <==> Orphan(page[0], users) || exists i :: 0 <= i < |page[1..]| && Orphan(page[1..][i], users)
  {
    assert forall i :: 1 <= i < |page| ==> page[i] == page[1..][i - 1];
  }

  /** `h` is the record `a` joined to an active employee whose id is the record's `user_id`. */
  predicate JoinedWithEmployee(h: History, a: Attendance, users: seq<Employees.User>) {
    exists k :: 0 <= k < |users| && users[k].id == a.userId && Employees.Active(users[k]) && h == Joined(a, users[k])
  }

  /** `getAllAttendances`: one page of every record, newest first, joined to its employee, and its meta block. */
  function AllHistory(rows: seq<Attendance>, users: seq<Employees.User>, pageQ: Option<string>, limitQ: Option<string>)
    : (r: Result<Query.Page<History>, AppError>)
    ensures var p := Query.Paginate(Query.SortDesc(rows, CreatedAt), pageQ, limitQ);
      && (p.Err? ==> r == Err(p.error))
      && (p.Ok? ==> r.Err? == JoinUsers(p.value.rows, users).Err?)
      && (r.Ok? ==> p.Ok? && r.value.meta == p.value.meta && r.value.rows == JoinUsers(p.value.rows, users).value)
    ensures r.Ok? ==> r.value.meta.total == |rows|
  {
    match Query.Paginate(Query.SortDesc(rows, CreatedAt), pageQ, limitQ)
    case Err(e) => Err(e)
    case Ok(p) =>
      assert |Query.SortDesc(rows, CreatedAt)| == |multiset(Query.SortDesc(rows, CreatedAt))| == |rows|;
      match JoinUsers(p.rows, users)
      case Err(e) => Err(e)
      case Ok(hs) => Ok(Query.Page(hs, p.meta))
  }

  /**
   * Soft-deleting an employee who has a record on the requested page makes
   * that page of the full history fail, since the include no longer finds
   * the employee.
   */
  lemma DeletedEmployeeBreaksHistory(rows: seq<Attendance>, users: seq<Employees.User>, nextId: nat, k: nat, now: int,
                                     pageQ: Option<string>, limitQ: Option<string>, i: nat)
    requires Employees.WellFormed(users, nextId) && k < |users|
    requires Query.Paginate(Query.SortDesc(rows, CreatedAt), pageQ, limitQ).Ok?
    requires i < |Query.Paginate(Query.SortDesc(rows, CreatedAt), pageQ, limitQ).value.rows|
    requires Query.Paginate(Query.SortDesc(rows, CreatedAt), pageQ, limitQ).value.rows[i].userId == users[k].id
    ensures AllHistory(rows, users[k := Employees.SoftDeleted(users[k], now)], pageQ, limitQ)
            == Err(Unexpected(NullDereference))
  {
    var after := users[k := Employees.SoftDeleted(users[k], now)];
    Employees.DeletedNotFound(users, nextId, k, now);
    var page := Query.Paginate(Query.SortDesc(rows, CreatedAt), pageQ, limitQ).value.rows;
    assert Employees.FindActive(after, page[i].userId).None?;
  }

  // ---------------------------------------------------------------------------
  // getAttendancesToday

  datatype DailySummary = DailySummary(
    countOfEmployee: nat,
    countOfClockInToday: nat,
    countOfNotYetClockInToday: int,
    countOfClockOutToday: nat,
    countOfNotYetClockOutToday: int)

  /** The records whose `time_in` falls on `today`. */
  function InOn(dayOf: int -> int, today: int): Attendance -> bool {
    (a: Attendance) => dayOf(a.timeIn) == today
  }

  /** The records whose `time_out` is set and falls on `today`. */
  function OutOn(dayOf: int -> int, today: int): Attendance -> bool {
    (a: Attendance) => a.timeOut.Some? && dayOf(a.timeOut.value) == today
  }

  /**
   * The dashboard counts: active employees, records clocked in and clocked
   * out today (of any employee, deleted or not), and the two differences
   * as plain subtraction.
   */
  function AttendancesToday(users: seq<Employees.User>, rows: seq<Attendance>, today: int, dayOf: int -> int)
    : (s: DailySummary)
    ensures s.countOfEmployee == |Query.Filter(users, Employees.Active)|
    ensures s.countOfClockInToday == |Query.Filter(rows, InOn(dayOf, today))|
    ensures s.countOfClockOutToday == |Query.Filter(rows, OutOn(dayOf, today))|
    ensures s.countOfNotYetClockInToday == s.countOfEmployee - s.countOfClockInToday
    ensures s.countOfNotYetClockOutToday == s.countOfEmployee - s.countOfClockOutToday
    ensures s.countOfClockInToday <= |rows| && s.countOfClockOutToday <= |rows|
  {
    var countOfEmployee := |Query.Filter(users, Employees.Active)|;
    var countOfClockInToday := |Query.Filter(rows, InOn(dayOf, today))|;
    var countOfClockOutToday := |Query.Filter(rows, OutOn(dayOf, today))|;
    DailySummary(countOfEmployee, countOfClockInToday, countOfEmployee - countOfClockInToday,
                 countOfClockOutToday, countOfEmployee - countOfClockOutToday)
  }

  /** The ids that have an active employee; there are no more of them than active rows. */
  function ActiveIds(users: seq<Employees.User>): (ids: set<nat>)
    ensures forall id :: id in ids <==> Employees.FindActive(users, id).Some?
    ensures |ids| <= |Query.Filter(users, Employees.Active)|
  {
    if users == [] then {}
    else
      var rest := ActiveIds(users[1..]);
      ActiveShift(users);
      if Employees.Active(users[0]) then {users[0].id} + rest else rest
  }

  lemma ActiveShift(users: seq<Employees.User>)
    requires users != []
    ensures forall id :: Employees.FindActive(users, id).Some?
                         <==> (users[0].id == id && Employees.Active(users[0])) || Employees.FindActive(users[1..], id).Some?
  {
    assert forall i :: 1 <= i < |users| ==> users[i] == users[1..][i - 1];
  }

  /** With one record per user and day, today's records of users in `ids` are at most `|ids|`. */
  lemma {:induction false} ClockInsBound(rows: seq<Attendance>, dayOf: int -> int, today: int, ids: set<nat>)
    requires OnePerDay(rows, dayOf)
    requires forall i :: 0 <= i < |rows| && dayOf(rows[i].timeIn) == today ==> rows[i].userId in ids
    ensures |Query.Filter(rows, InOn(dayOf, today))| <= |ids|
  {
    if rows != [] {
      var tail := rows[1..];
      assert forall i :: 0 <= i < |tail| ==> tail[i] == rows[i + 1];
      assert OnePerDay(tail, dayOf);
      if InOn(dayOf, today)(rows[0]) {
        var rest := ids - {rows[0].userId};
        forall i | 0 <= i < |tail| && dayOf(tail[i].timeIn) == today
          ensures tail[i].userId in rest
        {
          assert rows[0].userId != rows[i + 1].userId;
        }
        ClockInsBound(tail, dayOf, today, rest);
      } else {
        ClockInsBound(tail, dayOf, today, ids);
      }
    }
  }

  /**
   * When everyone who clocked in today is still an active employee, each is
   * counted once, so nobody is "not yet clocked in" a negative number of times.
   */
  lemma NotYetClockedInNonNegative(users: seq<Employees.User>, rows: seq<Attendance>, today: int, dayOf: int -> int)
    requires OnePerDay(rows, dayOf)
    requires forall i :: 0 <= i < |rows| && dayOf(rows[i].timeIn) == today ==> Employees.FindActive(users, rows[i].userId).Some?
    ensures AttendancesToday(users, rows, today, dayOf).countOfNotYetClockInToday >= 0
  {
    ClockInsBound(rows, dayOf, today, ActiveIds(users));
  }

  /** A soft-deleted employee's check-in today still counts, so the figure drops below zero. */
  lemma DeletedCheckInGoesNegative(u: Employees.User, a: Attendance, dayOf: int -> int)
    requires !Employees.Active(u) && a.userId == u.id
    ensures AttendancesToday([u], [a], dayOf(a.timeIn), dayOf).countOfNotYetClockInToday == -1
  {
    assert Query.Filter([u], Employees.Active) == [];
    assert Query.Filter([a], InOn(dayOf, dayOf(a.timeIn))) == [a];
  }

  /** A check-in adds exactly one to today's clock-ins and changes no other count but the difference. */
  lemma CheckInCounted(users: seq<Employees.User>, rows: seq<Attendance>, a: Attendance, dayOf: int -> int)
    requires a.timeOut.None?
    ensures var before, after := AttendancesToday(users, rows, dayOf(a.timeIn), dayOf),
                                 AttendancesToday(users, rows + [a], dayOf(a.timeIn), dayOf);
      && after.countOfClockInToday == before.countOfClockInToday + 1
      && after.countOfClockOutToday == before.countOfClockOutToday
      && after.countOfEmployee == before.countOfEmployee
  {
    Query.FilterAppend(rows, a, InOn(dayOf, dayOf(a.timeIn)));
    Query.FilterAppend(rows, a, OutOn(dayOf, dayOf(a.timeIn)));
  }

  /**
   * A check-out at `now` of a record still open adds one to the clock-outs
   * of `now`'s day whatever day the record was clocked in, and leaves the
   * clock-ins alone: the two figures can disagree.
   */
  lemma CheckOutCounted(users: seq<Employees.User>, rows: seq<Attendance>, k: nat, now: int, dayOf: int -> int)
    requires k < |rows| && rows[k].timeOut.None?
    ensures var before, after := AttendancesToday(users, rows, dayOf(now), dayOf),
                                 AttendancesToday(users, rows[k := CheckedOut(rows[k], now)], dayOf(now), dayOf);
      && after.countOfClockOutToday == before.countOfClockOutToday + 1
      && after.countOfClockInToday == before.countOfClockInToday
      && after.countOfEmployee == before.countOfEmployee
  {
    Query.FilterUpdateCount(rows, k, CheckedOut(rows[k], now), InOn(dayOf, dayOf(now)));
    Query.FilterUpdateCount(rows, k, CheckedOut(rows[k], now), OutOn(dayOf, dayOf(now)));
  }
}
