/**
 * The employee directory: the `Users` table with soft deletion (a row whose
 * `deletedAt` is set is hidden from every ordinary query, while the unique
 * indexes on `username` and `noEmployee` still cover it), the employee
 * number generator, the create loop with its five attempts, and the
 * list / department / get / update / delete handlers.
 */
module Employees {
  import opened Outcomes
  import opened Errors
  import Text
  import Query
  import Envelope

  // ---------------------------------------------------------------------------
  // Rows

  datatype User = User(
    id: nat,
    username: string,
    passwordHash: string,
    name: Option<string>,
    noEmployee: string,
    role: string,
    email: Option<string>,
    department: Option<string>,
    createdAt: int,
    updatedAt: int,
    deletedAt: Option<int>)

  /** A row every ordinary query sees: not soft-deleted. */
  predicate Active(u: User) { u.deletedAt.None? }

  const DepartmentList: seq<string> := ["engineer", "human resource", "finance", "general affair"]

  /** The values of the `role` ENUM column. */
  const RoleList: seq<string> := ["employee", "hrd"]

  const MaxRetries: nat := 5

  /** `departmentList.includes(department)`; an absent department is not included. */
  predicate ValidDepartment(d: Option<string>) { d.Some? && d.value in DepartmentList }

  /** What the table's constraints guarantee about its rows. */
  predicate WellFormed(users: seq<User>, nextId: nat) {
    && (forall i :: 0 <= i < |users| ==> users[i].id < nextId)
    && (forall i :: 0 <= i < |users| ==> users[i].role in RoleList)
    && (forall i :: 0 <= i < |users| && users[i].department.Some? ==> users[i].department.value in DepartmentList)
    && (forall i, j :: 0 <= i < j < |users| ==>
          users[i].id != users[j].id
          && users[i].username != users[j].username
          && users[i].noEmployee != users[j].noEmployee)
  }

  // ---------------------------------------------------------------------------
  // generateEmployeeNo

  /** The server's local calendar date: `getFullYear()`, `getMonth() + 1`, `getDate()`. */
  datatype LocalDate = LocalDate(year: nat, month: nat, day: nat)

  predicate ValidDate(d: LocalDate) { 1 <= d.month <= 12 && 1 <= d.day <= 31 }

  /** `String(n).padStart(2, "0")`. */
  function Pad2(n: nat): (s: string)
    ensures n < 100 ==> s == [Text.DigitChar(n / 10), Text.DigitChar(n % 10)]
  {
    var t := Text.NatToString(n);
    if n < 10 then
      assert t == [Text.DigitChar(n)];
      Text.PadStart(t, 2, '0')
    else if n < 100 then
      assert Text.NatToString(n / 10) == [Text.DigitChar(n / 10)];
      Text.PadStart(t, 2, '0')
    else
      Text.PadStart(t, 2, '0')
  }

  /** The `yymmdd` prefix of the numbers issued on `d`. */
  function DatePrefix(d: LocalDate): string {
    Text.TakeLast(Text.NatToString(d.year), 2) + Pad2(d.month) + Pad2(d.day)
  }

  /** The last digit `String(n)` prints is `n % 10`. */
  lemma LastDigit(n: nat)
    ensures var s := Text.NatToString(n); s[|s| - 1] == Text.DigitChar(n % 10)
  {
  }

  /** `String(year).slice(-2)` for a year of two or more digits: its tens and units digits. */
  lemma YearDigits(year: nat)
    requires year >= 10
    ensures Text.TakeLast(Text.NatToString(year), 2) == [Text.DigitChar(year / 10 % 10), Text.DigitChar(year % 10)]
  {
    var y := Text.NatToString(year);
    var h := Text.NatToString(year / 10);
    assert y == h + [Text.DigitChar(year % 10)];
    LastDigit(year / 10);
    assert |y| >= 2;
    var t := Text.TakeLast(y, 2);
    assert t == y[|y| - 2..];
    assert t[0] == h[|h| - 1] && t[1] == Text.DigitChar(year % 10);
  }

  /** For a year of two or more digits, the prefix is six digits: yy, then mm, then dd. */
  lemma DatePrefixDigits(d: LocalDate)
    requires ValidDate(d) && d.year >= 10
    ensures |DatePrefix(d)| == 6 && Text.AllDigits(DatePrefix(d))
    ensures DatePrefix(d)[..2] == [Text.DigitChar(d.year / 10 % 10), Text.DigitChar(d.year % 10)]
    ensures DatePrefix(d)[2..4] == [Text.DigitChar(d.month / 10), Text.DigitChar(d.month % 10)]
    ensures DatePrefix(d)[4..] == [Text.DigitChar(d.day / 10), Text.DigitChar(d.day % 10)]
  {
    var a, b, c := Text.TakeLast(Text.NatToString(d.year), 2), Pad2(d.month), Pad2(d.day);
    YearDigits(d.year);
    TwoDigits(d.year / 10 % 10, d.year % 10);
    TwoDigits(d.month / 10, d.month % 10);
    TwoDigits(d.day / 10, d.day % 10);
    Pairs(a, b, c);
    assert DatePrefix(d) == a + b + c;
  }

  lemma TwoDigits(x: nat, y: nat)
    requires x < 10 && y < 10
    ensures |[Text.DigitChar(x), Text.DigitChar(y)]| == 2 && Text.AllDigits([Text.DigitChar(x), Text.DigitChar(y)])
  {
  }

  lemma Pairs(a: string, b: string, c: string)
    requires |a| == 2 && |b| == 2 && |c| == 2
    requires Text.AllDigits(a) && Text.AllDigits(b) && Text.AllDigits(c)
    ensures |a + b + c| == 6 && Text.AllDigits(a + b + c)
    ensures (a + b + c)[..2] == a && (a + b + c)[2..4] == b && (a + b + c)[4..] == c
  {
    var s := a + b + c;
    assert forall i :: 0 <= i < 6 ==> s[i] == if i < 2 then a[i] else if i < 4 then b[i - 2] else c[i - 4];
  }

  /**
   * `nextSequence`: 1 without a truthy latest number, otherwise one more
   * than `parseInt` of its last four characters; None is NaN.
   */
  function NextSequenceNumber(latest: Option<string>): Option<int> {
    if Envelope.Truthy(latest) then
      match Text.ParseInt(Text.TakeLast(latest.value, 4), true)
      case None => None
      case Some(v) => Some(v + 1)
    else Some(1)
  }

  /** `String(nextSequence).padStart(4, "0")`, where NaN prints as "NaN". */
  function SequenceStr(n: Option<int>): (t: string)
    ensures |t| >= 4
  {
    if n.Some? then Text.PadStart(Text.IntToString(n.value), 4, '0') else NaNText()
  }

  function NaNText(): (t: string)
    ensures |t| == 4
  {
    Text.PadStart("NaN", 4, '0')
  }

  /** The four (or more) characters after the date in the next number. */
  function SequenceText(latest: Option<string>): (t: string)
    ensures |t| >= 4
  {
    SequenceStr(NextSequenceNumber(latest))
  }

  /** `generateEmployeeNo` once the latest number with today's prefix is known. */
  function GenerateEmployeeNo(d: LocalDate, latest: Option<string>): (no: string)
    ensures DatePrefix(d) <= no
    ensures |no| >= |DatePrefix(d)| + 4
  {
    DatePrefix(d) + SequenceText(latest)
  }

  /** The first number of a day ends in 0001. */
  lemma FirstOfDay(d: LocalDate)
    ensures GenerateEmployeeNo(d, None) == DatePrefix(d) + "0001"
  {
    FirstSequence();
  }

  lemma FirstSequence()
    ensures SequenceText(None) == "0001"
  {
    assert Text.IntToString(1) == "1";
  }

  lemma Pow10Four()
    ensures Text.Pow10(4) == 10000
  {
    assert Text.Pow10(1) == 10;
    assert Text.Pow10(2) == 100;
    assert Text.Pow10(3) == 1000;
  }

  /** A number below 10000 padded to four places is four digits with the same value. */
  lemma PadFour(n: nat)
    requires n < 10000
    ensures var s := Text.PadStart(Text.NatToString(n), 4, '0');
      |s| == 4 && Text.AllDigits(s) && Text.AllRadixDigits(s, 10) && Text.RadixValue(s, 10) == n
  {
    Pow10Four();
    Text.NatToStringLength(n, 4);
    var t := Text.NatToString(n);
    Padded(t, Text.PadStart(t, 4, '0'));
  }

  /** Zeros in front of a digit text keep it digits and keep its value. */
  lemma Padded(t: string, s: string)
    requires |t| <= |s| && s[|s| - |t|..] == t && Text.AllDigits(t)
    requires forall i :: 0 <= i < |s| - |t| ==> s[i] == '0'
    ensures Text.AllDigits(s) && Text.AllRadixDigits(s, 10) && Text.RadixValue(s, 10) == Text.RadixValue(t, 10)
  {
    var zs := s[..|s| - |t|];
    assert s == zs + t;
    Text.LeadingZeros(zs, t);
  }

  /** Below 9999, the sequence after four digits is the next value in four digits, and sorts after them. */
  lemma NextSequence(latest: string, q: string)
    requires |latest| >= 4 && latest[|latest| - 4..] == q
    requires Text.AllRadixDigits(q, 10) && Text.RadixValue(q, 10) < 9999
    ensures var s := SequenceText(Some(latest));
      && |s| == 4 && Text.AllRadixDigits(s, 10) && Text.RadixValue(s, 10) == Text.RadixValue(q, 10) + 1
      && Text.LexLess(q, s)
  {
    RadixDigitsAreDigits(q);
    SequenceOfDigits(latest, q);
    var v := Text.RadixValue(q, 10);
    PadFour(v + 1);
    Text.LexDigits(q, Text.PadStart(Text.NatToString(v + 1), 4, '0'));
  }

  /** When the last four characters are digits, the sequence is their value plus one, padded to four places. */
  lemma SequenceOfDigits(latest: string, q: string)
    requires |latest| >= 4 && latest[|latest| - 4..] == q && Text.AllDigits(q)
    ensures SequenceText(Some(latest)) == Text.PadStart(Text.NatToString(Text.RadixValue(q, 10) + 1), 4, '0')
  {
    assert Text.TakeLast(latest, 4) == q;
    Text.ParseIntDigits(q, true);
  }

  lemma RadixDigitsAreDigits(q: string)
    requires Text.AllRadixDigits(q, 10)
    ensures Text.AllDigits(q)
  {
    forall i | 0 <= i < |q| ensures Text.IsDigit(q[i]) {
      assert Text.RadixDigit(q[i], 10).Some?;
    }
  }

  /**
   * Below 9999, the next number keeps the prefix and the length, is one more
   * in its last four digits, and sorts after the latest.
   */
  lemma NextNumber(d: LocalDate, latest: string)
    requires WellFormedNo(latest, DatePrefix(d))
    ensures var no := GenerateEmployeeNo(d, Some(latest));
      var p := DatePrefix(d);
      && |no| == |latest|
      && Text.AllRadixDigits(no[|p|..], 10) && Text.RadixValue(no[|p|..], 10) == Text.RadixValue(latest[|p|..], 10) + 1
      && Text.LexLess(latest, no)
  {
    var p := DatePrefix(d);
    var q := latest[|p|..];
    assert latest[|latest| - 4..] == q;
    NextSequence(latest, q);
    SamePrefix(p, latest, SequenceText(Some(latest)));
  }

  /** Replacing what follows `p` by a four-digit text that sorts after it moves the whole number up. */
  lemma SamePrefix(p: string, latest: string, s: string)
    requires p <= latest && |latest| == |p| + 4 && |s| == 4
    requires Text.LexLess(latest[|p|..], s)
    ensures |p + s| == |latest| && (p + s)[|p|..] == s
    ensures Text.LexLess(latest, p + s)
  {
    var q := latest[|p|..];
    assert latest == p + q;
    Text.LexCommonPrefix(p, q, s);
  }

  /** Four nines are followed by five digits. */
  lemma SequenceAfterNines(latest: string)
    requires |latest| >= 4 && latest[|latest| - 4..] == "9999"
    ensures SequenceText(Some(latest)) == "10000"
  {
    assert Text.TakeLast(latest, 4) == "9999";
    Text.ParseIntDigits("9999", true);
    NinesValue();
    TenThousand();
    assert Text.ParseInt(Text.TakeLast(latest, 4), true) == Some(9999);
  }

  /** "9999" is a decimal numeral worth 9999. */
  lemma NinesValue()
    ensures Text.AllRadixDigits("9999", 10) && Text.RadixValue("9999", 10) == 9999
  {
    assert "9999"[..3] == "999" && "999"[..2] == "99" && "99"[..1] == "9";
    assert Text.RadixValue("9", 10) == 9;
    assert Text.RadixValue("99", 10) == 99;
    assert Text.RadixValue("999", 10) == 999;
  }

  /** `String(10000)` is "10000". */
  lemma TenThousand()
    ensures Text.IntToString(10000) == "10000"
  {
    assert Text.NatToString(1) == "1";
    assert Text.NatToString(10) == "10";
    assert Text.NatToString(100) == "100";
    assert Text.NatToString(1000) == "1000";
    assert Text.NatToString(10000) == "10000";
  }

  /** After 9999 the sequence grows to five digits, and that number sorts before the latest. */
  lemma Overflow(d: LocalDate)
    ensures var latest := DatePrefix(d) + "9999";
      var no := GenerateEmployeeNo(d, Some(latest));
      no == DatePrefix(d) + "10000" && Text.LexLess(no, latest)
  {
    var p := DatePrefix(d);
    var latest := p + "9999";
    assert latest[|latest| - 4..] == "9999";
    SequenceAfterNines(latest);
    assert Text.LexLess("10000", "9999");
    Text.LexCommonPrefix(p, "10000", "9999");
  }

  /** Four characters that are not digits give a NaN sequence, printed as "0NaN". */
  lemma SequenceOfNonDigits(latest: string)
    requires |latest| >= 4 && latest[|latest| - 4..] == "abcd"
    ensures SequenceText(Some(latest)) == "0NaN"
  {
    var t := "abcd";
    assert Text.TakeLast(latest, 4) == t;
    assert !Text.IsJsSpace(t[0]);
    assert Text.TrimStart(t) == t;
    assert Text.Unsigned(t) == t;
    assert Text.LeadingDigits(t, 10) == [];
    assert Text.ParseInt(t, true).None?;
  }

  /** A latest number whose last four characters hold no digits yields the literal "0NaN". */
  lemma NaNSequence(d: LocalDate)
    ensures GenerateEmployeeNo(d, Some(DatePrefix(d) + "abcd")) == DatePrefix(d) + "0NaN"
  {
    var latest := DatePrefix(d) + "abcd";
    assert latest[|latest| - 4..] == "abcd";
    SequenceOfNonDigits(latest);
  }

  // ---------------------------------------------------------------------------
  // The latest number with a prefix (`ORDER BY no_employee DESC`, first row)

  /** A row the prefix lookup sees: active, with a number starting with `prefix`. */
  predicate Prefixed(u: User, prefix: string) { Active(u) && prefix <= u.noEmployee }

  /** The greatest number, in the store's string order, among the active rows that have the prefix. */
  function LatestWithPrefix(users: seq<User>, prefix: string): (r: Option<string>)
    ensures r.None? <==> forall i :: 0 <= i < |users| ==> !Prefixed(users[i], prefix)
    ensures r.Some? ==> exists i :: 0 <= i < |users| && Prefixed(users[i], prefix) && users[i].noEmployee == r.value
    ensures r.Some? ==> forall i :: 0 <= i < |users| && Prefixed(users[i], prefix) ==> Text.LexLe(users[i].noEmployee, r.value)
  {
    if users == [] then None
    else
      var rest := LatestWithPrefix(users[1..], prefix);
      var u := users[0];
      assert forall i :: 1 <= i < |users| ==> users[i] == users[1..][i - 1];
      if !Prefixed(u, prefix) then rest
      else if rest.None? then Some(u.noEmployee)
      else if Text.LexLess(rest.value, u.noEmployee) then
        assert forall i :: 1 <= i < |users| && Prefixed(users[i], prefix) ==> Text.LexLe(users[i].noEmployee, u.noEmployee) by {
          forall i | 1 <= i < |users| && Prefixed(users[i], prefix)
            ensures Text.LexLe(users[i].noEmployee, u.noEmployee)
          {
            if users[i].noEmployee != rest.value {
              Text.LexTransitive(users[i].noEmployee, rest.value, u.noEmployee);
            }
          }
        }
        Some(u.noEmployee)
      else
        Text.LexTotal(rest.value, u.noEmployee);
        rest
  }

  /** The number the generator issues next on `d`. */
  function NextEmployeeNo(users: seq<User>, d: LocalDate): (no: string)
    ensures DatePrefix(d) <= no
  {
    GenerateEmployeeNo(d, LatestWithPrefix(users, DatePrefix(d)))
  }

  /** A number of the form prefix plus four digits below 9999. */
  predicate WellFormedNo(no: string, prefix: string) {
    |no| == |prefix| + 4 && prefix <= no
    && Text.AllRadixDigits(no[|prefix|..], 10) && Text.RadixValue(no[|prefix|..], 10) < 9999
  }

  /**
   * When every number of the day is active and well formed, the generator
   * issues a number no row holds yet.
   */
  lemma FreshEmployeeNo(users: seq<User>, d: LocalDate)
    requires forall i :: 0 <= i < |users| && DatePrefix(d) <= users[i].noEmployee ==>
               Active(users[i]) && WellFormedNo(users[i].noEmployee, DatePrefix(d))
    ensures forall i :: 0 <= i < |users| ==> users[i].noEmployee != NextEmployeeNo(users, d)
  {
    var p := DatePrefix(d);
    var latest := LatestWithPrefix(users, p);
    if latest.Some? {
      var k :| 0 <= k < |users| && Prefixed(users[k], p) && users[k].noEmployee == latest.value;
      NextNumber(d, latest.value);
    }
    BeyondLatest(users, p, latest, NextEmployeeNo(users, d));
  }

  /**
   * A number with the prefix is held by no row when the active rows are the
   * only ones with the prefix and it sorts after the latest of them.
   */
  lemma BeyondLatest(users: seq<User>, p: string, latest: Option<string>, no: string)
    requires p <= no
    requires forall i :: 0 <= i < |users| && p <= users[i].noEmployee ==> Active(users[i])
    requires latest.None? ==> forall i :: 0 <= i < |users| ==> !Prefixed(users[i], p)
    requires latest.Some? ==> Text.LexLess(latest.value, no)
    requires latest.Some? ==> forall i :: 0 <= i < |users| && Prefixed(users[i], p) ==> Text.LexLe(users[i].noEmployee, latest.value)
    ensures forall i :: 0 <= i < |users| ==> users[i].noEmployee != no
  {
    forall i | 0 <= i < |users| ensures users[i].noEmployee != no {
      var x := users[i].noEmployee;
      if p <= x {
        assert Prefixed(users[i], p);
        var l := latest.value;
        if x != l {
          Text.LexTransitive(x, l, no);
        }
        Text.LexIrreflexive(no);
      }
    }
  }

  // ---------------------------------------------------------------------------
  // createSingleEmployee

  /** The request body; a field left out of the body is None. */
  datatype NewEmployee = NewEmployee(
    username: Option<string>,
    password: Option<string>,
    name: Option<string>,
    role: Option<string>,
    email: Option<string>,
    department: Option<string>)

  /** `User.findOne({ where: { username } })`: only active rows are searched. */
  predicate UsernameTaken(users: seq<User>, username: string) {
    exists i :: 0 <= i < |users| && Active(users[i]) && users[i].username == username
  }

  /**
   * Why `User.create` fails, if it does: the store is down, the username is
   * missing from a NOT NULL column, the role is not one of the ENUM values,
   * or the username or number is already in some row (the unique indexes
   * cover soft-deleted rows too).
   */
  function AttemptFault(users: seq<User>, body: NewEmployee, no: string, storeDown: bool): (f: Option<Fault>)
    ensures f.None? <==> && !storeDown && body.username.Some?
                         && (body.role.None? || body.role.value in RoleList)
                         && !Clashes(users, body.username.value, no)
    ensures f.Some? ==> f.value in {StoreFailure, SchemaViolation, UniqueViolation}
  {
    if storeDown then Some(StoreFailure)
    else if body.username.None? then Some(SchemaViolation)
    else if body.role.Some? && body.role.value !in RoleList then Some(SchemaViolation)
    else if Clashes(users, body.username.value, no) then Some(UniqueViolation)
    else None
  }

  /** Some row, deleted or not, already holds the username or the number. */
  predicate Clashes(users: seq<User>, username: string, no: string) {
    exists i :: 0 <= i < |users| && (users[i].username == username || users[i].noEmployee == no)
  }

  /** The row a successful insert adds; the role defaults to "employee" and a missing name is NULL. */
  function NewRow(id: nat, body: NewEmployee, passwordHash: string, no: string, now: int): User
    requires body.username.Some?
  {
    User(id, body.username.value, passwordHash, body.name, no, body.role.GetOr("employee"),
         body.email, body.department, now, now, None)
  }

  /** A successful insert keeps the table well formed. */
  lemma InsertKeepsWellFormed(users: seq<User>, nextId: nat, body: NewEmployee, passwordHash: string, no: string, now: int)
    requires WellFormed(users, nextId) && ValidDepartment(body.department)
    requires AttemptFault(users, body, no, false).None?
    ensures WellFormed(users + [NewRow(nextId, body, passwordHash, no, now)], nextId + 1)
  {
  }

  /**
   * What the handler ends with: whether it already answered 400 "Username
   * already exists" (it does not stop there), how many inserts it tried
   * and the created row or the error its catch block classifies.
   */
  datatype CreateOutcome = CreateOutcome(usernameReply: bool, tries: nat, result: Result<User, AppError>)

  /** A username held only by a soft-deleted row passes the check but fails every insert. */
  lemma DeletedUsernameBlocked(users: seq<User>, k: nat, body: NewEmployee, no: string, storeDown: bool)
    requires k < |users| && !Active(users[k]) && body.username == Some(users[k].username)
    requires forall i :: 0 <= i < |users| && Active(users[i]) ==> users[i].username != body.username.value
    ensures !UsernameTaken(users, body.username.value)
    ensures AttemptFault(users, body, no, storeDown).Some?
  {
  }

  /**
   * A number held only by a soft-deleted row is issued again, because the
   * prefix lookup does not see that row, and the insert then fails.
   */
  lemma DeletedNumberReissued(users: seq<User>, d: LocalDate, body: NewEmployee)
    requires |users| == 1 && !Active(users[0]) && users[0].noEmployee == DatePrefix(d) + "0001"
    ensures NextEmployeeNo(users, d) == users[0].noEmployee
    ensures AttemptFault(users, body, NextEmployeeNo(users, d), false).Some?
  {
    assert LatestWithPrefix(users, DatePrefix(d)).None? by {
      assert !Prefixed(users[0], DatePrefix(d));
    }
    FirstOfDay(d);
  }

  // ---------------------------------------------------------------------------
  // Reads: getAllEmployees, getEmployeeById, getAllDepartment

  /** `(req.query.x as string) || ""`. */
  function QueryText(q: Option<string>): (s: string)
    ensures Envelope.Truthy(q) <==> s != ""
    ensures s != "" ==> q == Some(s)
  {
    if q.Some? then q.value else ""
  }

  /** The `where` of `getAllEmployees`: active, the search text in the name or number, the exact department. */
  predicate Matches(u: User, search: string, department: string) {
    && Active(u)
    && (search == "" || (u.name.Some? && Text.Contains(u.name.value, search)) || Text.Contains(u.noEmployee, search))
    && (department == "" || u.department == Some(department))
  }

  datatype EmployeeSummary = EmployeeSummary(id: nat, noEmployee: string, name: Option<string>, email: Option<string>, department: Option<string>)

  function Summary(u: User): EmployeeSummary {
    EmployeeSummary(u.id, u.noEmployee, u.name, u.email, u.department)
  }

  /** The matching rows, newest first. */
  function Listed(users: seq<User>, search: string, department: string): (r: seq<User>)
    ensures |r| == |Query.Filter(users, u => Matches(u, search, department))|
    ensures forall i :: 0 <= i < |r| ==> r[i] in users && Matches(r[i], search, department)
    ensures forall u :: u in users && Matches(u, search, department) ==> u in r
    ensures multiset(r) == multiset(Query.Filter(users, u => Matches(u, search, department)))
    ensures Query.SortedDesc(r, (u: User) => u.createdAt)
  {
    Query.Newest(users, u => Matches(u, search, department), (u: User) => u.createdAt)
  }

  /** `getAllEmployees`: one page of the matching active employees, newest first, and its meta block. */
  function ListEmployees(users: seq<User>, searchQ: Option<string>, departmentQ: Option<string>,
                         pageQ: Option<string>, limitQ: Option<string>): (r: Result<Query.Page<EmployeeSummary>, AppError>)
    ensures r.Ok? <==> Query.QueryInt(pageQ, 1) > 0 && Query.QueryInt(limitQ, 10) > 0
    ensures r.Err? ==> r.error == Unexpected(InvalidQuery)
    ensures r.Ok? ==> r.value.meta.total == |Query.Filter(users, u => Matches(u, QueryText(searchQ), QueryText(departmentQ)))|
    ensures r.Ok? ==> |r.value.rows| <= r.value.meta.limit == Query.QueryInt(limitQ, 10)
    ensures r.Ok? ==> forall i :: 0 <= i < |r.value.rows| ==>
              SummaryOfMatch(r.value.rows[i], users, QueryText(searchQ), QueryText(departmentQ))
    ensures r.Ok? ==> var page, limit := Query.QueryInt(pageQ, 1), Query.QueryInt(limitQ, 10);
      var ordered := Listed(users, QueryText(searchQ), QueryText(departmentQ));
      && r.value.meta == Envelope.Meta(page, limit, Query.CeilDiv(|ordered|, limit), |ordered|)
      && r.value.rows == Summaries(Query.Slice(ordered, Query.Offset(page, limit), limit))
  {
    var search, department := QueryText(searchQ), QueryText(departmentQ);
    var ordered := Listed(users, search, department);
    match Query.Paginate(ordered, pageQ, limitQ)
    case Err(e) => Err(e)
    case Ok(p) =>
      Query.PageMembers(ordered, Query.Params(pageQ, limitQ), u => u in users && Matches(u, search, department));
      SummariesOf(p.rows, users, search, department);
      Ok(Query.Page(Summaries(p.rows), p.meta))
  }

  /** The selected attributes of each row, in order. */
  function Summaries(rows: seq<User>): (r: seq<EmployeeSummary>)
    ensures |r| == |rows|
    ensures forall i :: 0 <= i < |r| ==> r[i] == Summary(rows[i])
  {
    seq(|rows|, i requires 0 <= i < |rows| => Summary(rows[i]))
  }

  /** `e` is what the listing shows for some matching row of `users`. */
  predicate SummaryOfMatch(e: EmployeeSummary, users: seq<User>, search: string, department: string) {
    exists u :: u in users && Matches(u, search, department) && e == Summary(u)
  }

  /** Each summary of matching rows is the summary of some matching row. */
  lemma SummariesOf(rows: seq<User>, users: seq<User>, search: string, department: string)
    requires forall i :: 0 <= i < |rows| ==> rows[i] in users && Matches(rows[i], search, department)
    ensures forall i :: 0 <= i < |rows| ==> SummaryOfMatch(Summaries(rows)[i], users, search, department)
  {
    forall i | 0 <= i < |rows| ensures SummaryOfMatch(Summaries(rows)[i], users, search, department) {
      var u := rows[i];
      assert u in users && Matches(u, search, department) && Summaries(rows)[i] == Summary(u);
    }
  }

  datatype EmployeeDetail = EmployeeDetail(id: nat, noEmployee: string, name: Option<string>, username: string,
                                           email: Option<string>, department: Option<string>)

  /** The index of the active row with `id`, the first if there were several. */
  function FindActive(users: seq<User>, id: nat): (k: Option<nat>)
    ensures k.Some? ==> k.value < |users| && users[k.value].id == id && Active(users[k.value])
    ensures k.None? <==> forall i :: 0 <= i < |users| ==> !(users[i].id == id && Active(users[i]))
  {
    if users == [] then None
    else if users[0].id == id && Active(users[0]) then Some(0)
    else match FindActive(users[1..], id)
      case None =>
        assert forall i :: 1 <= i < |users| ==> users[i] == users[1..][i - 1];
        None
      case Some(k) => Some(k + 1)
  }

  /** `getEmployeeById`: the active employee with that id, or null data (still a success). */
  function GetEmployeeById(users: seq<User>, id: nat): (r: Option<EmployeeDetail>)
    ensures r.None? <==> forall i :: 0 <= i < |users| ==> !(users[i].id == id && Active(users[i]))
    ensures r.Some? ==> exists i :: 0 <= i < |users| && users[i].id == id && Active(users[i])
                                    && r.value == EmployeeDetail(id, users[i].noEmployee, users[i].name,
                                                                 users[i].username, users[i].email, users[i].department)
  {
    match FindActive(users, id)
    case None => None
    case Some(k) =>
      var u := users[k];
      Some(EmployeeDetail(u.id, u.noEmployee, u.name, u.username, u.email, u.department))
  }

  // Department labels

  /** `toUpperCase` on the ASCII letters; every other character is kept. */
  function ToUpper(c: char): (u: char)
    ensures u == ' ' <==> c == ' '
    ensures 'a' <= c <= 'z' ==> u as int == c as int - 32
    ensures !('a' <= c <= 'z') ==> u == c
  {
    if 'a' <= c <= 'z' then (c as int - 32) as char else c
  }

  /** `word.charAt(0).toUpperCase() + word.slice(1)`. */
  function Capitalize(w: string): (r: string)
    ensures |r| == |w|
    ensures w != [] ==> r[0] == ToUpper(w[0]) && r[1..] == w[1..]
    ensures ' ' !in w ==> ' ' !in r
  {
    if w == [] then [] else [ToUpper(w[0])] + w[1..]
  }

  function CapitalizeAll(ws: seq<string>): (rs: seq<string>)
    ensures |rs| == |ws|
    ensures forall i :: 0 <= i < |ws| ==> rs[i] == Capitalize(ws[i])
  {
    seq(|ws|, i requires 0 <= i < |ws| => Capitalize(ws[i]))
  }

  /** The label of a department: each space-separated word capitalised. */
  function Label(s: string): string {
    Text.Join(CapitalizeAll(Text.Split(s, ' ')), ' ')
  }

  /** A label is as long as the department name. */
  lemma LabelLength(s: string)
    ensures |Label(s)| == |s|
  {
    var ws := Text.Split(s, ' ');
    Text.JoinSameShape(CapitalizeAll(ws), ws, ' ');
    Text.JoinSplit(s, ' ');
  }

  /** A label has the same words as the department name, each capitalised. */
  lemma LabelWords(s: string)
    ensures Text.Split(Label(s), ' ') == CapitalizeAll(Text.Split(s, ' '))
    ensures |Text.Split(Label(s), ' ')| == |Text.Split(s, ' ')|
  {
    Text.SplitJoin(CapitalizeAll(Text.Split(s, ' ')), ' ');
  }

  /** Labelling a label changes nothing. */
  lemma LabelIdempotent(s: string)
    ensures Label(Label(s)) == Label(s)
  {
    LabelWords(s);
    var ws := Text.Split(s, ' ');
    assert CapitalizeAll(CapitalizeAll(ws)) == CapitalizeAll(ws);
  }

  /** `{ value, label }`; `label` is a reserved word here. */
  datatype DepartmentOption = DepartmentOption(value: string, labelText: string)

  /**
   * `findAll({ attributes: ["department"], group: ["department"] })`: each
   * department of an active row once, in order of first appearance.
   */
  function ActiveDepartments(users: seq<User>): (ds: seq<Option<string>>)
    ensures forall x :: x in ds <==> exists k :: 0 <= k < |users| && Active(users[k]) && users[k].department == x
    ensures forall i, j :: 0 <= i < j < |ds| ==> ds[i] != ds[j]
  {
    if users == [] then []
    else
      var init := users[..|users| - 1];
      var u := users[|users| - 1];
      var ds := ActiveDepartments(init);
      assert forall k :: 0 <= k < |init| ==> init[k] == users[k];
      if !Active(u) || u.department in ds then ds else ds + [u.department]
  }

  /**
   * `getAllDepartment`: one option per distinct department among the active
   * rows, its label the capitalised name. A group whose department is null
   * makes `.split` throw.
   */
  function DepartmentOptions(users: seq<User>): (r: Result<seq<DepartmentOption>, AppError>)
    ensures r.Err? <==> exists i :: 0 <= i < |users| && Active(users[i]) && users[i].department.None?
    ensures r.Err? ==> r.error == Unexpected(NullDereference)
    ensures r.Ok? ==> |r.value| == |ActiveDepartments(users)|
    ensures r.Ok? ==> forall i :: 0 <= i < |r.value| ==>
              ActiveDepartments(users)[i] == Some(r.value[i].value) && r.value[i].labelText == Label(r.value[i].value)
  {
    var ds := ActiveDepartments(users);
    if None in ds then
      Err(Unexpected(NullDereference))
    else
      Ok(Options(ds))
  }

  /** No department is listed twice. */
  lemma DepartmentOptionsDistinct(users: seq<User>)
    requires DepartmentOptions(users).Ok?
    ensures var opts := DepartmentOptions(users).value;
      forall i, j :: 0 <= i < j < |opts| ==> opts[i].value != opts[j].value
  {
    var opts := DepartmentOptions(users).value;
    var ds := ActiveDepartments(users);
    forall i, j | 0 <= i < j < |opts| ensures opts[i].value != opts[j].value {
      assert ds[i] != ds[j];
    }
  }

  /** Every listed department belongs to some active employee. */
  lemma DepartmentOptionsSound(users: seq<User>)
    requires DepartmentOptions(users).Ok?
    ensures var opts := DepartmentOptions(users).value;
      forall i :: 0 <= i < |opts| ==>
        exists k :: 0 <= k < |users| && Active(users[k]) && users[k].department == Some(opts[i].value)
  {
    var opts := DepartmentOptions(users).value;
    var ds := ActiveDepartments(users);
    forall i | 0 <= i < |opts|
      ensures exists k :: 0 <= k < |users| && Active(users[k]) && users[k].department == Some(opts[i].value)
    {
      assert ds[i] in ds;
    }
  }

  /** Every active employee's department is listed. */
  lemma DepartmentOptionsComplete(users: seq<User>)
    requires DepartmentOptions(users).Ok?
    ensures var opts := DepartmentOptions(users).value;
      forall k :: 0 <= k < |users| && Active(users[k]) ==>
        exists i :: 0 <= i < |opts| && users[k].department == Some(opts[i].value)
  {
    var opts := DepartmentOptions(users).value;
    var ds := ActiveDepartments(users);
    forall k | 0 <= k < |users| && Active(users[k])
      ensures exists i :: 0 <= i < |opts| && users[k].department == Some(opts[i].value)
    {
      assert users[k].department in ds;
      var i :| 0 <= i < |ds| && ds[i] == users[k].department;
      assert ds[i] == Some(opts[i].value);
    }
  }

  /** The `{ value, label }` objects for a list of non-null departments. */
  function Options(ds: seq<Option<string>>): (opts: seq<DepartmentOption>)
    requires None !in ds
    ensures |opts| == |ds|
    ensures forall i :: 0 <= i < |ds| ==> ds[i] == Some(opts[i].value) && opts[i].labelText == Label(opts[i].value)
  {
    assert forall i :: 0 <= i < |ds| ==> ds[i].Some? by {
      forall i | 0 <= i < |ds| ensures ds[i].Some? {
        assert ds[i] in ds;
      }
    }
    seq(|ds|, i requires 0 <= i < |ds| => DepartmentOption(ds[i].value, Label(ds[i].value)))
  }

  // ---------------------------------------------------------------------------
  // updateEmployee and deleteEmployee

  /** `User.update({ name, email, department })`: a field left out of the body keeps its value. */
  function Patched(u: User, name: Option<string>, email: Option<string>, department: Option<string>, now: int): (v: User)
    ensures v.(name := u.name, email := u.email, department := u.department, updatedAt := u.updatedAt) == u
    ensures v.name == (if name.Some? then name else u.name) && v.email == (if email.Some? then email else u.email)
    ensures v.department == (if department.Some? then department else u.department)
    ensures v.updatedAt == now
  {
    u.(name := if name.Some? then name else u.name,
       email := if email.Some? then email else u.email,
       department := if department.Some? then department else u.department,
       updatedAt := now)
  }

  /** The row after `User.update({ deleted_at: new Date() })`. */
  function SoftDeleted(u: User, now: int): (v: User)
    ensures !Active(v) && v.deletedAt == Some(now) && v.updatedAt == now
    ensures v.(deletedAt := u.deletedAt, updatedAt := u.updatedAt) == u
  {
    u.(deletedAt := Some(now), updatedAt := now)
  }

  /** After a delete the employee is not found any more: get answers null, update and delete answer "not found". */
  lemma DeletedNotFound(users: seq<User>, nextId: nat, k: nat, now: int)
    requires WellFormed(users, nextId) && k < |users|
    ensures var after := users[k := SoftDeleted(users[k], now)];
      FindActive(after, users[k].id).None? && GetEmployeeById(after, users[k].id).None?
  {
    var after := users[k := SoftDeleted(users[k], now)];
    assert forall i :: 0 <= i < |after| && after[i].id == users[k].id ==> i == k;
  }

  /** After a delete the employee is on no page of the list. */
  lemma DeletedNotListed(users: seq<User>, nextId: nat, k: nat, now: int, searchQ: Option<string>, departmentQ: Option<string>,
                         pageQ: Option<string>, limitQ: Option<string>)
    requires WellFormed(users, nextId) && k < |users|
    ensures var r := ListEmployees(users[k := SoftDeleted(users[k], now)], searchQ, departmentQ, pageQ, limitQ);
      r.Ok? ==> forall i :: 0 <= i < |r.value.rows| ==> r.value.rows[i].id != users[k].id
  {
    var after := users[k := SoftDeleted(users[k], now)];
    var r := ListEmployees(after, searchQ, departmentQ, pageQ, limitQ);
    if r.Ok? {
      DeletedInactive(users, nextId, k, now);
      NoSummaryOfInactive(r.value.rows, after, QueryText(searchQ), QueryText(departmentQ), users[k].id);
    }
  }

  /** Ids are unique, so after the delete no active row carries the deleted id. */
  lemma DeletedInactive(users: seq<User>, nextId: nat, k: nat, now: int)
    requires WellFormed(users, nextId) && k < |users|
    ensures var after := users[k := SoftDeleted(users[k], now)];
      forall j :: 0 <= j < |after| && after[j].id == users[k].id ==> !Active(after[j])
  {
    var after := users[k := SoftDeleted(users[k], now)];
    assert forall j :: 0 <= j < |after| && after[j].id == users[k].id ==> j == k;
  }

  /** Summaries of matching rows never show an id whose rows are all inactive. */
  lemma NoSummaryOfInactive(rows: seq<EmployeeSummary>, users: seq<User>, search: string, department: string, id: nat)
    requires forall i :: 0 <= i < |rows| ==> SummaryOfMatch(rows[i], users, search, department)
    requires forall j :: 0 <= j < |users| && users[j].id == id ==> !Active(users[j])
    ensures forall i :: 0 <= i < |rows| ==> rows[i].id != id
  {
    forall i | 0 <= i < |rows| ensures rows[i].id != id {
      var u :| u in users && Matches(u, search, department) && rows[i] == Summary(u);
      var j :| 0 <= j < |users| && users[j] == u;
    }
  }

  /**
   * How the insert loop ends, from the table before it (`before`, `beforeId`)
   * to the table after it: every try but the last failed; the last one
   * succeeded exactly when its insert raised nothing; a success appended
   * the new row, and after five failures the last fault is thrown and
   * nothing changed.
   */
  ghost predicate Retried(before: seq<User>, beforeId: nat, after: seq<User>, afterId: nat,
                          body: NewEmployee, hashed: string, no: string, now: int,
                          storeFails: nat -> bool, tries: nat, result: Result<User, AppError>)
  {
    && 1 <= tries <= MaxRetries
    && (forall k :: 0 <= k < tries - 1 ==> AttemptFault(before, body, no, storeFails(k)).Some?)
    && (result.Ok? <==> AttemptFault(before, body, no, storeFails(tries - 1)).None?)
    && (result.Err? ==>
          && tries == MaxRetries
          && result.error == Unexpected(AttemptFault(before, body, no, storeFails(MaxRetries - 1)).value)
          && after == before && afterId == beforeId)
    && (result.Ok? ==>
          && result.value == NewRow(beforeId, body, hashed, no, now)
          && after == before + [result.value] && afterId == beforeId + 1)
  }

  /**
   * A failed try changes nothing, so every retry regenerates the same number:
   * once the username or the number clashes, all five tries fail and the
   * handler throws the unique violation (unless the last try met a store
   * failure or the role is rejected).
   */
  lemma ClashExhaustsRetries(before: seq<User>, beforeId: nat, after: seq<User>, afterId: nat,
                             body: NewEmployee, hashed: string, no: string, now: int,
                             storeFails: nat -> bool, tries: nat, result: Result<User, AppError>)
    requires Retried(before, beforeId, after, afterId, body, hashed, no, now, storeFails, tries, result)
    requires body.username.Some? && Clashes(before, body.username.value, no)
    ensures result.Err? && tries == MaxRetries && after == before && afterId == beforeId
    ensures !storeFails(MaxRetries - 1) && (body.role.None? || body.role.value in RoleList)
            ==> result.error == Unexpected(UniqueViolation)
  {
  }

  // ---------------------------------------------------------------------------
  // The table

  class Directory {
    var users: seq<User>
    var nextId: nat

    ghost predicate Valid()
      reads this
    {
      WellFormed(users, nextId)
    }

    constructor ()
      ensures Valid() && users == [] && nextId == 1
    {
      users := [];
      nextId := 1;
    }

    /**
     * `createSingleEmployee`: looks the username up (a missing username makes
     * the lookup throw), answers 400 early on an active duplicate without
     * stopping, hashes the password (a missing one makes bcrypt reject),
     * rejects a department outside the list before any insert, then runs the
     * insert loop.
     */
    method CreateSingleEmployee(body: NewEmployee, hash: string -> string, today: LocalDate, now: int,
                                storeFails: nat -> bool) returns (out: CreateOutcome)
      requires Valid()
      modifies this
      ensures Valid()
      ensures body.username.None? ==>
                out == CreateOutcome(false, 0, Err(Unexpected(InvalidQuery)))
                && users == old(users) && nextId == old(nextId)
      ensures body.username.Some? ==> out.usernameReply == UsernameTaken(old(users), body.username.value)
      ensures body.username.Some? && body.password.None? ==>
                out.result == Err(Unexpected(HashFailure)) && out.tries == 0
                && users == old(users) && nextId == old(nextId)
      ensures body.username.Some? && body.password.Some? && !ValidDepartment(body.department) ==>
                out.result == Err(ValidationError("Invalid department")) && out.tries == 0
                && users == old(users) && nextId == old(nextId)
      ensures body.username.Some? && body.password.Some? && ValidDepartment(body.department) ==>
                Retried(old(users), old(nextId), users, nextId, body, hash(body.password.value),
                        NextEmployeeNo(old(users), today), now, storeFails, out.tries, out.result)
    {
      if body.username.None? {
        return CreateOutcome(false, 0, Err(Unexpected(InvalidQuery)));
      }
      var taken := UsernameTaken(users, body.username.value);
      if body.password.None? {
        return CreateOutcome(taken, 0, Err(Unexpected(HashFailure)));
      }
      var hashed := hash(body.password.value);
      if !ValidDepartment(body.department) {
        return CreateOutcome(taken, 0, Err(ValidationError("Invalid department")));
      }
      var tries, result := InsertWithRetries(body, hashed, us => NextEmployeeNo(us, today), now, storeFails);
      return CreateOutcome(taken, tries, result);
    }

    /**
     * The insert loop: up to five tries, each calling the number generator
     * afresh on the current table. A failed insert changes nothing; the
     * first success appends exactly one row and stops; if every try fails
     * the last error is thrown.
     */
    method InsertWithRetries(body: NewEmployee, hashed: string, generate: seq<User> -> string, now: int,
                             storeFails: nat -> bool)
      returns (tries: nat, result: Result<User, AppError>)
      requires Valid() && ValidDepartment(body.department)
      modifies this
      ensures Valid()
      ensures Retried(old(users), old(nextId), users, nextId, body, hashed, generate(old(users)), now, storeFails, tries, result)
    {
      ghost var no := generate(users);
      var attempt: nat := 0;
      var lastError: Option<Fault> := None;
      var user: Option<User> := None;
      while attempt < MaxRetries
        invariant attempt <= MaxRetries
        invariant users == old(users) && nextId == old(nextId)
        invariant forall k :: 0 <= k < attempt ==> AttemptFault(users, body, no, storeFails(k)).Some?
        invariant attempt > 0 ==> lastError == AttemptFault(users, body, no, storeFails(attempt - 1))
        invariant user.None?
      {
        var employeeNo := generate(users);
        var created := Insert(body, hashed, employeeNo, now, storeFails(attempt));
        if created.Ok? {
          user := Some(created.value);
          break;
        }
        ghost var failed := attempt;
        attempt := attempt + 1;
        lastError := Some(created.error);
        forall k | 0 <= k < attempt ensures AttemptFault(users, body, no, storeFails(k)).Some? {
          if k == failed {
            assert Some(created.error) == AttemptFault(users, body, no, storeFails(k));
          }
        }
        if attempt >= MaxRetries {
          break;
        }
      }
      if user.None? {
        assert attempt == MaxRetries;
        assert lastError == AttemptFault(old(users), body, no, storeFails(MaxRetries - 1));
        return attempt, Err(Unexpected(lastError.GetOr(CreateFailed)));
      }
      return attempt + 1, Ok(user.value);
    }

    /**
     * `User.create`: the insert either raises the fault `AttemptFault`
     * names and leaves the table as it was, or appends exactly the new row
     * and returns it.
     */
    method Insert(body: NewEmployee, hashed: string, no: string, now: int, storeDown: bool)
      returns (r: Result<User, Fault>)
      requires Valid() && ValidDepartment(body.department)
      modifies this
      ensures Valid()
      ensures r.Err? <==> AttemptFault(old(users), body, no, storeDown).Some?
      ensures r.Err? ==> Some(r.error) == AttemptFault(old(users), body, no, storeDown)
                         && users == old(users) && nextId == old(nextId)
      ensures r.Ok? ==> body.username.Some? && r.value == NewRow(old(nextId), body, hashed, no, now)
                        && users == old(users) + [r.value] && nextId == old(nextId) + 1
    {
      var fault := AttemptFault(users, body, no, storeDown);
      if fault.Some? {
        return Err(fault.value);
      }
      var row := NewRow(nextId, body, hashed, no, now);
      InsertKeepsWellFormed(users, nextId, body, hashed, no, now);
      users := users + [row];
      nextId := nextId + 1;
      return Ok(row);
    }

    /**
     * `updateEmployee`: "Employee not found" for a missing or soft-deleted id;
     * a department outside the ENUM is refused by the store; otherwise only
     * the given fields of that row change.
     */
    method UpdateEmployee(id: nat, name: Option<string>, email: Option<string>, department: Option<string>, now: int)
      returns (r: Result<(), AppError>)
      requires Valid()
      modifies this
      ensures Valid() && nextId == old(nextId)
      ensures FindActive(old(users), id).None? ==> r == Err(ValidationError("Employee not found"))
      ensures FindActive(old(users), id).Some? && department.Some? && department.value !in DepartmentList ==>
                r == Err(Unexpected(SchemaViolation))
      ensures r.Ok? <==> FindActive(old(users), id).Some? && (department.None? || department.value in DepartmentList)
      ensures r.Err? ==> users == old(users)
      ensures r.Ok? ==> var k := FindActive(old(users), id).value;
                users == old(users)[k := Patched(old(users)[k], name, email, department, now)]
    {
      var found := FindActive(users, id);
      if found.None? {
        return Err(ValidationError("Employee not found"));
      }
      if department.Some? && department.value !in DepartmentList {
        return Err(Unexpected(SchemaViolation));
      }
      var k := found.value;
      users := users[k := Patched(users[k], name, email, department, now)];
      r := Ok(());
    }

    /** `deleteEmployee`: "Employee not found" for a missing or soft-deleted id, otherwise a soft delete of that row. */
    method DeleteEmployee(id: nat, now: int) returns (r: Result<(), AppError>)
      requires Valid()
      modifies this
      ensures Valid() && nextId == old(nextId)
      ensures r.Err? <==> FindActive(old(users), id).None?
      ensures r.Err? ==> r.error == ValidationError("Employee not found") && users == old(users)
      ensures r.Ok? ==> var k := FindActive(old(users), id).value;
                users == old(users)[k := SoftDeleted(old(users)[k], now)]
    {
      var found := FindActive(users, id);
      if found.None? {
        return Err(ValidationError("Employee not found"));
      }
      var k := found.value;
      users := users[k := SoftDeleted(users[k], now)];
      r := Ok(());
    }
  }
}
