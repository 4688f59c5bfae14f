/**
 * The rows of the meeting-notes store and the read-only queries over them
 * (db.py). Every table is a map from row id to record; a table scan visits the
 * rows in ascending id order, which is the order SQLite returns them in when a
 * query has no ORDER BY, and the tie order of one that has.
 */
module Tables {
  import opened Wrappers
  import opened Query

  // ---------------------------------------------------------------- records

  datatype Role = Admin | Member

  datatype User = User(username: string, displayName: string, email: Option<string>,
                       role: Role, isActive: bool, mustChangePassword: bool)

  datatype MeetingStatus = Open | Locked

  datatype Meeting = Meeting(date: string, createdAt: string, status: MeetingStatus,
                             lockedBy: Option<int>, lockedAt: Option<string>, templateId: Option<int>)

  /** A department's report area in one meeting; `reporter`/`reporterId` are snapshots. */
  datatype Section = Section(meetingId: int, name: string, reporter: string, sortOrder: int,
                             isSpecial: bool, content: string, departmentId: Option<int>,
                             reporterId: Option<int>, updatedAt: Option<string>)

  datatype Priority = Low | Normal | High

  datatype Todo = Todo(sectionId: int, text: string, done: bool, assignedTo: Option<int>,
                       dueDate: Option<string>, priority: Priority, createdBy: Option<int>,
                       createdAt: string, completedAt: Option<string>)

  datatype Department = Department(name: string, color: Option<string>, sortOrder: int,
                                   isSpecial: bool, isArchived: bool)

  /** A department_reporter row: primary or backup reporter of a department. */
  datatype ReporterRow = ReporterRow(departmentId: int, userId: int, isPrimary: bool)

  datatype Template = Template(name: string, description: string, createdBy: Option<int>, createdAt: string)

  datatype TemplateSection = TemplateSection(templateId: int, departmentId: int, sortOrder: int,
                                             defaultContent: string)

  datatype AttendanceStatus = Present | Absent | Remote

  /** SQLite truthiness of a nullable integer column: NULL and 0 are false. */
  predicate Truthy(o: Option<int>) {
    o.Some? && o.value != 0
  }

  // ----------------------------------------------------------- table scans

  /** The rows of `m` with id below `n`, in ascending id order. */
  function Scan<T>(m: map<int, T>, n: int): (r: seq<(int, T)>)
    decreases n
  {
    if n <= 0 then [] else Scan(m, n - 1) + (if n - 1 in m then [(n - 1, m[n - 1])] else [])
  }

  lemma {:induction false} ScanMembers<T>(m: map<int, T>, n: int)
    ensures forall e :: e in Scan(m, n) <==> (e.0 in m && 0 <= e.0 < n && e.1 == m[e.0])
    decreases n
  {
    if n > 0 {
      ScanMembers(m, n - 1);
    }
  }

  lemma {:induction false} ScanBelow<T>(m: map<int, T>, n: int, i: int)
    requires 0 <= i < |Scan(m, n)|
    ensures 0 <= Scan(m, n)[i].0 < n
    decreases n
  {
    var s := Scan(m, n - 1);
    if i < |s| {
      ScanBelow(m, n - 1, i);
    }
  }

  lemma {:induction false} ScanAscending<T>(m: map<int, T>, n: int)
    ensures forall i, j :: 0 <= i < j < |Scan(m, n)| ==> Scan(m, n)[i].0 < Scan(m, n)[j].0
    decreases n
  {
    if n > 0 {
      ScanAscending(m, n - 1);
      var s := Scan(m, n - 1);
      forall i | 0 <= i < |s| ensures s[i].0 < n - 1 {
        ScanBelow(m, n - 1, i);
      }
    }
  }

  /** Rows inserted one after another take consecutive ids starting at `first`. */
  function Stamp<T>(m: map<int, T>, first: int, rows: seq<T>): map<int, T>
    decreases |rows|
  {
    if rows == [] then m
    else Stamp(m, first, rows[..|rows| - 1])[first + |rows| - 1 := rows[|rows| - 1]]
  }

  /** The i-th row gets id first + i, and every other row keeps its id and value. */
  lemma {:induction false} StampContents<T>(m: map<int, T>, first: int, rows: seq<T>)
    ensures var r := Stamp(m, first, rows);
            && (forall k :: k in r <==> k in m || first <= k < first + |rows|)
            && (forall k :: first <= k < first + |rows| ==> r[k] == rows[k - first])
            && (forall k :: k in m && !(first <= k < first + |rows|) ==> r[k] == m[k])
    decreases |rows|
  {
    if rows != [] {
      StampContents(m, first, rows[..|rows| - 1]);
    }
  }

  lemma StampStep<T>(m: map<int, T>, first: int, rows: seq<T>, x: T)
    ensures Stamp(m, first, rows + [x]) == Stamp(m, first, rows)[first + |rows| := x]
  {
    assert (rows + [x])[..|rows|] == rows;
  }

  predicate IdsBelow<T>(m: map<int, T>, n: int) {
    forall k :: k in m ==> 1 <= k < n
  }

  /** The value of `key` on row `a`; the trigger through which uniqueness is used. */
  function KeyAt<T, K>(m: map<int, T>, key: T -> K, a: int): K
    requires a in m
  {
    key(m[a])
  }

  /** A UNIQUE column: no two rows share a `key`. */
  predicate UniqueBy<T, K(==)>(m: map<int, T>, key: T -> K) {
    forall a, b {:trigger KeyAt(m, key, a), KeyAt(m, key, b)} ::
      a in m && b in m && KeyAt(m, key, a) == KeyAt(m, key, b) ==> a == b
  }

  /** Writing a row whose key no other row has keeps the column unique. */
  lemma UniqueByPut<T, K>(m: map<int, T>, key: T -> K, id: int, x: T)
    requires UniqueBy(m, key)
    requires forall a :: a in m && a != id ==> key(m[a]) != key(x)
    ensures UniqueBy(m[id := x], key)
  {
    var m' := m[id := x];
    forall a, b | a in m' && b in m' && KeyAt(m', key, a) == KeyAt(m', key, b)
      ensures a == b
    {
      if a != id && b != id {
        assert KeyAt(m, key, a) == KeyAt(m, key, b);
      }
    }
  }

  /** Updating rows without touching their keys keeps the column unique. */
  lemma UniqueBySameKeys<T, K>(m: map<int, T>, m': map<int, T>, key: T -> K)
    requires UniqueBy(m, key) && m'.Keys == m.Keys
    requires forall a :: a in m ==> key(m'[a]) == key(m[a])
    ensures UniqueBy(m', key)
  {
    forall a, b | a in m' && b in m' && KeyAt(m', key, a) == KeyAt(m', key, b)
      ensures a == b
    {
      assert KeyAt(m, key, a) == KeyAt(m, key, b);
    }
  }

  function Username(u: User): string { u.username }
  function MeetingDate(m: Meeting): string { m.date }
  function DepartmentName(d: Department): string { d.name }
  function TemplateName(t: Template): string { t.name }

  // ------------------------------------------------------- meetings & locks

  /** is_meeting_locked: a missing meeting counts as not locked. */
  predicate IsMeetingLocked(meetings: map<int, Meeting>, meetingId: int) {
    meetingId in meetings && meetings[meetingId].status == Locked
  }

  /** The meeting with date `date` in scan order (`SELECT * FROM meeting WHERE date = ?`). */
  function FindMeetingByDate(meetings: map<int, Meeting>, bound: int, date: string): Option<int> {
    var e := First(Scan(meetings, bound), (e: (int, Meeting)) => e.1.date == date);
    if e.Some? then Some(e.value.0) else None
  }

  /** The lookup finds a meeting with that date, and finds none only when there is none. */
  lemma FindMeetingByDateFound(meetings: map<int, Meeting>, bound: int, date: string)
    ensures var r := FindMeetingByDate(meetings, bound, date);
            && (r.Some? ==> r.value in meetings && 0 <= r.value < bound && meetings[r.value].date == date)
            && (r.None? ==> forall k :: k in meetings && 0 <= k < bound ==> meetings[k].date != date)
  {
    ScanMembers(meetings, bound);
    assert forall k :: k in meetings && 0 <= k < bound ==> (k, meetings[k]) in Scan(meetings, bound);
  }

  predicate DateTaken(meetings: map<int, Meeting>, date: string) {
    exists k :: k in meetings && meetings[k].date == date
  }

  // ----------------------------------------------------------- permissions

  predicate IsDepartmentReporter(reporters: seq<ReporterRow>, departmentId: int, userId: int) {
    ReporterRow(departmentId, userId, true) in reporters || ReporterRow(departmentId, userId, false) in reporters
  }

  /**
   * can_edit_section: a locked meeting denies everyone; otherwise admins may
   * edit, as may the section's snapshotted reporter and any primary or backup
   * reporter of the section's department.
   */
  function CanEditSection(meetings: map<int, Meeting>, reporters: seq<ReporterRow>,
                          userId: int, user: User, section: Section): (ok: bool)
    ensures IsMeetingLocked(meetings, section.meetingId) ==> !ok
    ensures !IsMeetingLocked(meetings, section.meetingId) ==>
              (ok <==> user.role == Admin
                       || (Truthy(section.reporterId) && section.reporterId.value == userId)
                       || (Truthy(section.departmentId)
                           && exists r :: r in reporters && r.departmentId == section.departmentId.value
                                                         && r.userId == userId))
  {
    if IsMeetingLocked(meetings, section.meetingId) then false
    else if user.role == Admin then true
    else if Truthy(section.reporterId) && section.reporterId.value == userId then true
    else if Truthy(section.departmentId) then
      assert forall r :: r in reporters && r.departmentId == section.departmentId.value && r.userId == userId
                         ==> r == ReporterRow(r.departmentId, r.userId, r.isPrimary);
      IsDepartmentReporter(reporters, section.departmentId.value, userId)
    else false
  }

  /** Adding reporter rows can only grant permission, never revoke it. */
  lemma MoreReportersNeverRevoke(meetings: map<int, Meeting>, reporters: seq<ReporterRow>,
                                 more: seq<ReporterRow>, userId: int, user: User, section: Section)
    requires forall r :: r in reporters ==> r in more
    requires CanEditSection(meetings, reporters, userId, user, section)
    ensures CanEditSection(meetings, more, userId, user, section)
  {
  }

  /** Reporter rows of other departments, and the lock state of other meetings, are irrelevant. */
  lemma PermissionIsLocal(meetings: map<int, Meeting>, reporters: seq<ReporterRow>, other: ReporterRow,
                          otherMeeting: int, m: Meeting, userId: int, user: User, section: Section)
    requires Truthy(section.departmentId) ==> other.departmentId != section.departmentId.value
    requires otherMeeting != section.meetingId
    ensures CanEditSection(meetings[otherMeeting := m], reporters + [other], userId, user, section)
            == CanEditSection(meetings, reporters, userId, user, section)
  {
    assert forall r :: r in reporters + [other] <==> r in reporters || r == other;
  }

  // -------------------------------------------------------------- sections

  /** `SELECT * FROM section WHERE meeting_id = ? ORDER BY sort_order`. */
  function SectionsOf(sections: map<int, Section>, bound: int, meetingId: int): seq<(int, Section)> {
    SortBy(Where(Scan(sections, bound), (e: (int, Section)) => e.1.meetingId == meetingId),
           (e: (int, Section)) => [Num(e.1.sortOrder)])
  }

  /** The query returns exactly the meeting's sections, each with its id. */
  lemma SectionsOfMembers(sections: map<int, Section>, bound: int, meetingId: int)
    ensures var r := SectionsOf(sections, bound, meetingId);
            forall e :: e in r <==> (e.0 in sections && 0 <= e.0 < bound && e.1 == sections[e.0]
                                    && sections[e.0].meetingId == meetingId)
  {
    var inMeeting := (e: (int, Section)) => e.1.meetingId == meetingId;
    ScanMembers(sections, bound);
    WhereMembers(Scan(sections, bound), inMeeting);
    var r := SectionsOf(sections, bound, meetingId);
    assert forall e :: e in r <==> e in multiset(r);
  }

  lemma SectionsOfSorted(sections: map<int, Section>, bound: int, meetingId: int)
    ensures var r := SectionsOf(sections, bound, meetingId);
            forall i, j :: 0 <= i < j < |r| ==> r[i].1.sortOrder <= r[j].1.sortOrder
  {
    var key := (e: (int, Section)) => [Num(e.1.sortOrder)];
    var rows := Where(Scan(sections, bound), (e: (int, Section)) => e.1.meetingId == meetingId);
    SortBySorted(rows, key);
    var r := SectionsOf(sections, bound, meetingId);
    forall i, j | 0 <= i < j < |r| ensures r[i].1.sortOrder <= r[j].1.sortOrder {
      assert KeyLe(key(r[i]), key(r[j]));
    }
  }

  /** The copy of a section into another meeting: everything but the meeting and updated_at. */
  function CopyOf(s: Section, meetingId: int): Section {
    s.(meetingId := meetingId, updatedAt := None)
  }

  // ------------------------------------------------------------ departments

  /** `SELECT * FROM department WHERE is_archived = 0 ORDER BY sort_order`. */
  function ActiveDepartments(departments: map<int, Department>, bound: int): seq<(int, Department)> {
    SortBy(Where(Scan(departments, bound), IsActive), DepartmentOrder)
  }

  /** `WHERE is_archived = 0`. */
  function IsActive(e: (int, Department)): bool {
    !e.1.isArchived
  }

  /** `ORDER BY sort_order`. */
  function DepartmentOrder(e: (int, Department)): Key {
    [Num(e.1.sortOrder)]
  }

  /** The query returns exactly the departments that are not archived, each with its id. */
  lemma ActiveDepartmentsMembers(departments: map<int, Department>, bound: int)
    ensures var r := ActiveDepartments(departments, bound);
            forall e :: e in r <==> (e.0 in departments && 0 <= e.0 < bound && e.1 == departments[e.0]
                                    && !departments[e.0].isArchived)
  {
    var scan := Scan(departments, bound);
    ScanMembers(departments, bound);
    WhereMembers(scan, IsActive);
    var w := Where(scan, IsActive);
    var r := SortBy(w, DepartmentOrder);
    forall e
      ensures e in r <==> e in w
    {
      assert e in r <==> e in multiset(r);
      assert e in w <==> e in multiset(w);
    }
  }

  /**
   * The department's primary reporter as (display name, user id): the first
   * primary department_reporter row, in row order, whose user exists.
   */
  function PrimaryReporter(reporters: seq<ReporterRow>, users: map<int, User>, departmentId: int)
    : (r: Option<(string, int)>)
    ensures r.Some? ==> r.value.1 in users && r.value.0 == users[r.value.1].displayName
                        && ReporterRow(departmentId, r.value.1, true) in reporters
    ensures r.None? ==> forall row :: row in reporters && row.departmentId == departmentId && row.isPrimary
                                      ==> row.userId !in users
  {
    if reporters == [] then None
    else if reporters[0].departmentId == departmentId && reporters[0].isPrimary && reporters[0].userId in users
    then Some((users[reporters[0].userId].displayName, reporters[0].userId))
    else
      assert forall row :: row in reporters ==> row == reporters[0] || row in reporters[1..];
      PrimaryReporter(reporters[1..], users, departmentId)
  }

  /** A fresh, empty section of meeting `meetingId` snapshotting a department and its primary reporter. */
  function DepartmentSection(meetingId: int, departmentId: int, d: Department,
                             reporters: seq<ReporterRow>, users: map<int, User>, content: string,
                             sortOrder: int): Section
  {
    var rep := PrimaryReporter(reporters, users, departmentId);
    Section(meetingId, d.name, if rep.Some? then rep.value.0 else "", sortOrder, d.isSpecial,
            content, Some(departmentId), if rep.Some? then Some(rep.value.1) else None, None)
  }

  /** The largest department sort_order, or -1 (`COALESCE(MAX(sort_order), -1)`). */
  function MaxSortOrder(rows: seq<(int, Department)>): (r: int)
    ensures forall e :: e in rows ==> e.1.sortOrder <= r
    ensures rows == [] ==> r == -1
    ensures rows != [] ==> exists e :: e in rows && e.1.sortOrder == r
  {
    if rows == [] then -1
    else if |rows| == 1 then rows[0].1.sortOrder
    else
      var rest := MaxSortOrder(rows[1..]);
      assert forall e :: e in rows ==> e == rows[0] || e in rows[1..];
      if rows[0].1.sortOrder >= rest then rows[0].1.sortOrder else rest
  }

  // ---------------------------------------------------------- fallback list

  /** DEFAULT_SECTIONS: (name, reporter, is_special) used when no department exists. */
  const DefaultSections: seq<(string, string, bool)> := [
    ("Engineering", "", false),
    ("Design", "", false),
    ("Product", "", false),
    ("QA", "", false),
    ("Infrastructure", "", false),
    ("Support", "", false),
    ("Operations", "", false),
    ("PTO / Out of Office", "", true),
    ("Shoutouts", "", true)
  ]

  function DefaultSection(meetingId: int, i: nat): Section
    requires i < |DefaultSections|
  {
    Section(meetingId, DefaultSections[i].0, DefaultSections[i].1, i, DefaultSections[i].2, "", None, None, None)
  }

  // ------------------------------------------------------------------ todos

  /** add_todo's priority rule: anything but "low", "normal" or "high" is stored as normal. */
  function NormalizePriority(p: string): (r: Priority)
    ensures PriorityName(r) == p <==> p in {"low", "normal", "high"}
    ensures p !in {"low", "normal", "high"} ==> r == Normal
  {
    if p == "low" then Low else if p == "high" then High else Normal
  }

  function PriorityName(p: Priority): string {
    match p
    case Low => "low"
    case Normal => "normal"
    case High => "high"
  }

  lemma PriorityRoundTrip(p: Priority)
    ensures NormalizePriority(PriorityName(p)) == p
  {
  }

  /** Overdue: a due date strictly before today. */
  predicate Overdue(t: Todo, today: string) {
    t.dueDate.Some? && StrLt(t.dueDate.value, today)
  }

  /** A todo joined with its section and meeting (the dashboard's SELECT list). */
  datatype TodoRow = TodoRow(id: int, todo: Todo, sectionName: string, reporter: string,
                             sectionOrder: int, meetingId: int, meetingDate: string,
                             assigneeName: Option<string>)

  /** `todo JOIN section JOIN meeting LEFT JOIN user`, in todo scan order. */
  function JoinRows(scan: seq<(int, Todo)>, sections: map<int, Section>, meetings: map<int, Meeting>,
                    users: map<int, User>): (r: seq<TodoRow>)
    ensures forall x :: x in r ==> (x.id, x.todo) in scan
  {
    if scan == [] then []
    else
      var (id, t) := scan[0];
      var head :=
        if t.sectionId in sections && sections[t.sectionId].meetingId in meetings then
          var s := sections[t.sectionId];
          var name := if t.assignedTo.Some? && t.assignedTo.value in users
                      then Some(users[t.assignedTo.value].displayName) else None;
          [TodoRow(id, t, s.name, s.reporter, s.sortOrder, s.meetingId, meetings[s.meetingId].date, name)]
        else [];
      head + JoinRows(scan[1..], sections, meetings, users)
  }

  /** A todo whose section and that section's meeting both exist survives the inner joins. */
  predicate Joinable(t: Todo, sections: map<int, Section>, meetings: map<int, Meeting>) {
    t.sectionId in sections && sections[t.sectionId].meetingId in meetings
  }

  /** The selected columns of a joined row: section name, reporter and order, meeting id and date, assignee name. */
  predicate JoinedFields(x: TodoRow, sections: map<int, Section>, meetings: map<int, Meeting>, users: map<int, User>)
    requires Joinable(x.todo, sections, meetings)
  {
    var s := sections[x.todo.sectionId];
    && x.sectionName == s.name && x.reporter == s.reporter && x.sectionOrder == s.sortOrder
    && x.meetingId == s.meetingId && x.meetingDate == meetings[s.meetingId].date
    && (x.assigneeName.Some? <==> x.todo.assignedTo.Some? && x.todo.assignedTo.value in users)
    && (x.assigneeName.Some? ==> x.assigneeName.value == users[x.todo.assignedTo.value].displayName)
  }

  /**
   * The join yields a row exactly for each scanned todo whose section and meeting
   * exist, carrying that section's and meeting's columns.
   */
  lemma {:induction false} JoinRowsExact(scan: seq<(int, Todo)>, sections: map<int, Section>,
                                         meetings: map<int, Meeting>, users: map<int, User>)
    ensures forall x :: x in JoinRows(scan, sections, meetings, users) ==>
              (x.id, x.todo) in scan && Joinable(x.todo, sections, meetings)
              && JoinedFields(x, sections, meetings, users)
    ensures forall e :: e in scan && Joinable(e.1, sections, meetings) ==>
              exists x :: x in JoinRows(scan, sections, meetings, users) && x.id == e.0 && x.todo == e.1
  {
    if scan != [] {
      JoinRowsExact(scan[1..], sections, meetings, users);
      var r := JoinRows(scan, sections, meetings, users);
      var rest := JoinRows(scan[1..], sections, meetings, users);
      assert scan == [scan[0]] + scan[1..];
      assert forall x :: x in rest ==> x in r;
      if Joinable(scan[0].1, sections, meetings) {
        assert r[0] in r && r[0].id == scan[0].0 && r[0].todo == scan[0].1;
      }
    }
  }

  /** get_all_open_todos' `assigned_to` argument: absent, the "unassigned" sentinel, or a user id. */
  datatype AssigneeParam = AnyAssignee | UnassignedOnly | AssigneeId(id: int)

  datatype DashboardFilter = DashboardFilter(assignedTo: AssigneeParam, priority: Option<string>,
                                             overdueOnly: bool, includeDone: bool)

  /** The WHERE clause of get_all_open_todos: one conjunct per requested filter, all on the todo's own columns. */
  predicate TodoPasses(f: DashboardFilter, today: string, t: Todo) {
    && (f.includeDone || !t.done)
    && (match f.assignedTo
        case AnyAssignee => true
        case UnassignedOnly => t.assignedTo.None?
        case AssigneeId(u) => u == 0 || t.assignedTo == Some(u))
    && (f.priority.None? || f.priority.value == "" || PriorityName(t.priority) == f.priority.value)
    && (!f.overdueOnly || (Overdue(t, today) && !t.done))
  }

  predicate MatchesDashboard(f: DashboardFilter, today: string, r: TodoRow) {
    TodoPasses(f, today, r.todo)
  }

  /** ORDER BY m.date DESC, s.sort_order, t.created_at. */
  function DashboardKey(r: TodoRow): Key {
    [Desc(r.meetingDate), Num(r.sectionOrder), Asc(r.todo.createdAt)]
  }

  function AllOpenTodos(rows: seq<TodoRow>, f: DashboardFilter, today: string): seq<TodoRow> {
    SortBy(Where(rows, (r: TodoRow) => MatchesDashboard(f, today, r)), DashboardKey)
  }

  /** The dashboard returns exactly the joined rows that pass every filter, as a permutation of them. */
  lemma AllOpenTodosMembers(rows: seq<TodoRow>, f: DashboardFilter, today: string)
    ensures var r := AllOpenTodos(rows, f, today);
            && (forall x :: x in r <==> x in rows && MatchesDashboard(f, today, x))
            && multiset(r) == multiset(Where(rows, (x: TodoRow) => MatchesDashboard(f, today, x)))
  {
    var p := (x: TodoRow) => MatchesDashboard(f, today, x);
    var w := Where(rows, p);
    WhereMembers(rows, p);
    var r := AllOpenTodos(rows, f, today);
    assert forall x :: x in r <==> x in multiset(r);
    assert forall x :: x in w <==> x in multiset(w);
  }

  /**
   * Which todos reach the dashboard: exactly those whose section and meeting exist
   * and which pass every filter, each with its joined columns.
   */
  lemma DashboardTodosExact(scan: seq<(int, Todo)>, sections: map<int, Section>, meetings: map<int, Meeting>,
                            users: map<int, User>, f: DashboardFilter, today: string)
    ensures forall x :: x in AllOpenTodos(JoinRows(scan, sections, meetings, users), f, today) ==>
              (x.id, x.todo) in scan && Joinable(x.todo, sections, meetings) && TodoPasses(f, today, x.todo)
              && JoinedFields(x, sections, meetings, users)
    ensures forall e :: e in scan && Joinable(e.1, sections, meetings) && TodoPasses(f, today, e.1) ==>
              exists x :: x in AllOpenTodos(JoinRows(scan, sections, meetings, users), f, today)
                          && x.id == e.0 && x.todo == e.1
  {
    var rows := JoinRows(scan, sections, meetings, users);
    JoinRowsExact(scan, sections, meetings, users);
    AllOpenTodosMembers(rows, f, today);
    forall e | e in scan && Joinable(e.1, sections, meetings) && TodoPasses(f, today, e.1)
      ensures exists x :: x in AllOpenTodos(rows, f, today) && x.id == e.0 && x.todo == e.1
    {
      var x :| x in rows && x.id == e.0 && x.todo == e.1;
      assert MatchesDashboard(f, today, x);
    }
  }

  /** Rows sorted by the dashboard key come newest meeting first. */
  lemma {:induction false} DashboardNewestFirst(r: seq<TodoRow>)
    requires SortedBy(r, DashboardKey)
    ensures forall i, j :: 0 <= i < j < |r| ==> StrLe(r[j].meetingDate, r[i].meetingDate)
  {
    forall i, j | 0 <= i < j < |r| ensures StrLe(r[j].meetingDate, r[i].meetingDate) {
      var a, b := DashboardKey(r[i]), DashboardKey(r[j]);
      assert KeyLe(a, b);
      KeyLeHead(a, b);
      if r[i].meetingDate != r[j].meetingDate {
        assert AtomLt(Desc(r[i].meetingDate), Desc(r[j].meetingDate));
      } else {
        StrLeRefl(r[i].meetingDate);
      }
    }
  }

  lemma AllOpenTodosOrder(rows: seq<TodoRow>, f: DashboardFilter, today: string)
    ensures var r := AllOpenTodos(rows, f, today);
            forall i, j :: 0 <= i < j < |r| ==> StrLe(r[j].meetingDate, r[i].meetingDate)
  {
    SortBySorted(Where(rows, (x: TodoRow) => MatchesDashboard(f, today, x)), DashboardKey);
    DashboardNewestFirst(AllOpenTodos(rows, f, today));
  }

  /** `overdue_only` also demands an open todo, even when `include_done` is set. */
  lemma OverdueOnlyIsOpen(rows: seq<TodoRow>, f: DashboardFilter, today: string, x: TodoRow)
    requires f.overdueOnly && x in AllOpenTodos(rows, f, today)
    ensures !x.todo.done && Overdue(x.todo, today)
  {
    AllOpenTodosMembers(rows, f, today);
  }

  /** high, normal, low. */
  function PriorityRank(p: Priority): int {
    match p
    case High => 0
    case Normal => 1
    case Low => 2
  }

  /**
   * get_my_todos' triage ORDER BY: overdue first, then dated before undated,
   * then due date, then priority high>normal>low, then creation time.
   */
  function TriageKey(t: Todo, today: string): Key {
    [Num(if Overdue(t, today) then 0 else 1), Num(if t.dueDate.None? then 1 else 0),
     Asc(t.dueDate.GetOr("")), Num(PriorityRank(t.priority)), Asc(t.createdAt)]
  }

  function MyTodos(rows: seq<TodoRow>, userId: int, includeDone: bool, today: string): seq<TodoRow> {
    SortBy(Where(rows, (r: TodoRow) => r.todo.assignedTo == Some(userId) && (includeDone || !r.todo.done)),
           (r: TodoRow) => TriageKey(r.todo, today))
  }

  /**
   * In a user's list every overdue todo precedes every other one, and once an
   * undated todo appears only undated ones follow.
   */
  lemma {:induction false} MyTodosTriage(rows: seq<TodoRow>, userId: int, includeDone: bool, today: string)
    ensures var r := MyTodos(rows, userId, includeDone, today);
            && (forall x :: x in r <==> x in rows && x.todo.assignedTo == Some(userId) && (includeDone || !x.todo.done))
            && (forall i, j :: 0 <= i < j < |r| && Overdue(r[j].todo, today) ==> Overdue(r[i].todo, today))
            && (forall i, j :: 0 <= i < j < |r| && r[i].todo.dueDate.None? ==> r[j].todo.dueDate.None?)
  {
    var p := (r: TodoRow) => r.todo.assignedTo == Some(userId) && (includeDone || !r.todo.done);
    var key := (r: TodoRow) => TriageKey(r.todo, today);
    var w := Where(rows, p);
    WhereMembers(rows, p);
    SortBySorted(w, key);
    var r := MyTodos(rows, userId, includeDone, today);
    assert forall x :: x in r <==> x in multiset(r);
    assert forall x :: x in w <==> x in multiset(w);
    forall i, j | 0 <= i < j < |r|
      ensures Overdue(r[j].todo, today) ==> Overdue(r[i].todo, today)
      ensures r[i].todo.dueDate.None? ==> r[j].todo.dueDate.None?
    {
      var a, b := key(r[i]), key(r[j]);
      assert KeyLe(a, b);
      KeyLeHead(a, b);
      if a[0] == b[0] {
        assert KeyLe(a[1..], b[1..]);
        KeyLeHead(a[1..], b[1..]);
      }
    }
  }

  /** The todos of one section, `ORDER BY done, created_at`. */
  function DoneKey(e: (int, Todo)): Key {
    [Num(if e.1.done then 1 else 0), Asc(e.1.createdAt)]
  }

  function SectionTodos(todos: map<int, Todo>, bound: int, sectionId: int): seq<(int, Todo)> {
    SortBy(Where(Scan(todos, bound), (e: (int, Todo)) => e.1.sectionId == sectionId), DoneKey)
  }

  /** get_todos_by_meeting's query: the todos whose section belongs to the meeting. */
  function MeetingTodos(todos: map<int, Todo>, sections: map<int, Section>, bound: int, meetingId: int)
    : seq<(int, Todo)>
  {
    SortBy(Where(Scan(todos, bound), (e: (int, Todo)) => e.1.sectionId in sections
                                                       && sections[e.1.sectionId].meetingId == meetingId),
           DoneKey)
  }

  // ------------------------------------------------------------- templates

  predicate TemplateNameTaken(templates: map<int, Template>, name: string, except: int) {
    exists k :: k in templates && k != except && templates[k].name == name
  }

  /** `SELECT * FROM template_section WHERE template_id = ? ORDER BY sort_order`. */
  function TemplateSectionsOf(rows: map<int, TemplateSection>, bound: int, templateId: int)
    : seq<(int, TemplateSection)>
  {
    SortBy(Where(Scan(rows, bound), (e: (int, TemplateSection)) => e.1.templateId == templateId),
           (e: (int, TemplateSection)) => [Num(e.1.sortOrder)])
  }

  /** template_section rows for a list of departments: the i-th gets sort_order i. */
  function DepartmentListRows(templateId: int, departmentIds: seq<int>): (r: seq<TemplateSection>)
    ensures |r| == |departmentIds|
    ensures forall i :: 0 <= i < |r| ==> r[i] == TemplateSection(templateId, departmentIds[i], i, "")
  {
    seq(|departmentIds|, i requires 0 <= i < |departmentIds| => TemplateSection(templateId, departmentIds[i], i, ""))
  }

  /**
   * save_template_from_meeting's rows: one per section that has a department,
   * keeping its sort_order and turning its content into default content.
   */
  function SavedTemplateRows(templateId: int, sections: seq<(int, Section)>): (r: seq<TemplateSection>)
    decreases |sections|
  {
    if sections == [] then []
    else
      var s := sections[|sections| - 1].1;
      SavedTemplateRows(templateId, sections[..|sections| - 1])
      + (if Truthy(s.departmentId)
         then [TemplateSection(templateId, s.departmentId.value, s.sortOrder, s.content)] else [])
  }

  lemma {:induction false} SavedTemplateRowsSpec(templateId: int, sections: seq<(int, Section)>)
    ensures |SavedTemplateRows(templateId, sections)| <= |sections|
    ensures forall t :: t in SavedTemplateRows(templateId, sections) <==>
              exists e :: e in sections && Truthy(e.1.departmentId)
                          && t == TemplateSection(templateId, e.1.departmentId.value, e.1.sortOrder, e.1.content)
    decreases |sections|
  {
    if sections != [] {
      var init := sections[..|sections| - 1];
      SavedTemplateRowsSpec(templateId, init);
      assert sections == init + [sections[|sections| - 1]];
      assert forall e :: e in sections <==> e in init || e == sections[|sections| - 1];
    }
  }

  /**
   * create_meeting_from_template's sections: one per template row whose
   * department still exists and is not archived, with the template's
   * sort_order and default content.
   */
  function TemplatePlan(meetingId: int, rows: seq<(int, TemplateSection)>, departments: map<int, Department>,
                        reporters: seq<ReporterRow>, users: map<int, User>): (r: seq<Section>)
    decreases |rows|
  {
    if rows == [] then []
    else
      var t := rows[|rows| - 1].1;
      TemplatePlan(meetingId, rows[..|rows| - 1], departments, reporters, users)
      + (if t.departmentId in departments && !departments[t.departmentId].isArchived
         then [DepartmentSection(meetingId, t.departmentId, departments[t.departmentId], reporters, users,
                                 t.defaultContent, t.sortOrder)]
         else [])
  }

  lemma {:induction false} TemplatePlanSound(meetingId: int, rows: seq<(int, TemplateSection)>,
                                             departments: map<int, Department>, reporters: seq<ReporterRow>,
                                             users: map<int, User>)
    ensures forall s :: s in TemplatePlan(meetingId, rows, departments, reporters, users) ==>
              && s.meetingId == meetingId && s.departmentId.Some?
              && s.departmentId.value in departments && !departments[s.departmentId.value].isArchived
              && s.name == departments[s.departmentId.value].name
              && exists e :: e in rows && e.1.departmentId == s.departmentId.value
                             && e.1.sortOrder == s.sortOrder && e.1.defaultContent == s.content
    decreases |rows|
  {
    if rows != [] {
      var init := rows[..|rows| - 1];
      TemplatePlanSound(meetingId, init, departments, reporters, users);
      assert rows == init + [rows[|rows| - 1]];
      assert forall e :: e in init ==> e in rows;
    }
  }

  lemma {:induction false} TemplatePlanComplete(meetingId: int, rows: seq<(int, TemplateSection)>,
                                                departments: map<int, Department>, reporters: seq<ReporterRow>,
                                                users: map<int, User>)
    ensures forall e :: e in rows && e.1.departmentId in departments && !departments[e.1.departmentId].isArchived
              ==> exists s :: s in TemplatePlan(meetingId, rows, departments, reporters, users)
                              && s.departmentId == Some(e.1.departmentId) && s.sortOrder == e.1.sortOrder
                              && s.content == e.1.defaultContent
    decreases |rows|
  {
    if rows != [] {
      var init := rows[..|rows| - 1];
      var last := rows[|rows| - 1].1;
      TemplatePlanComplete(meetingId, init, departments, reporters, users);
      assert rows == init + [rows[|rows| - 1]];
      var plan := TemplatePlan(meetingId, rows, departments, reporters, users);
      var before := TemplatePlan(meetingId, init, departments, reporters, users);
      assert forall s :: s in before ==> s in plan;
      if last.departmentId in departments && !departments[last.departmentId].isArchived {
        var s := DepartmentSection(meetingId, last.departmentId, departments[last.departmentId], reporters, users,
                                   last.defaultContent, last.sortOrder);
        assert plan == before + [s];
        assert s in plan;
      }
    }
  }

  // ------------------------------------------------------------- analytics

  /** get_meeting_fill_status: (sections with content, all sections) of a meeting. */
  function FillStatus(sections: map<int, Section>, bound: int, meetingId: int): (r: (nat, nat))
    ensures r.0 <= r.1
  {
    var rows := Where(Scan(sections, bound), (e: (int, Section)) => e.1.meetingId == meetingId);
    FilledAtMost(rows);
    (Count(rows, (e: (int, Section)) => e.1.content != ""), |rows|)
  }

  lemma {:induction false} FilledAtMost(rows: seq<(int, Section)>)
    ensures Count(rows, (e: (int, Section)) => e.1.content != "") <= |rows|
  {
    if rows != [] {
      FilledAtMost(rows[1..]);
    }
  }

  /** A heatmap cell: no section for the department, an empty one, or one with notes. */
  datatype Cell = Missing | Empty | Filled

  /** analytics_heatmap's cell for (meeting, department). */
  function HeatCell(sections: map<int, Section>, bound: int, meetingId: int, departmentId: int): (c: Cell)
    ensures c == Missing <==> forall k :: k in sections && 0 <= k < bound ==>
                                !(sections[k].meetingId == meetingId && sections[k].departmentId == Some(departmentId))
    ensures c != Missing ==> exists k :: k in sections && 0 <= k < bound && sections[k].meetingId == meetingId
                                        && sections[k].departmentId == Some(departmentId)
                                        && (c == Empty <==> sections[k].content == "")
  {
    ScanMembers(sections, bound);
    var hit := First(Scan(sections, bound),
                     (e: (int, Section)) => e.1.meetingId == meetingId && e.1.departmentId == Some(departmentId));
    if hit.None? then
      assert forall k :: k in sections && 0 <= k < bound ==> (k, sections[k]) in Scan(sections, bound);
      Missing
    else if hit.value.1.content != "" then Filled
    else Empty
  }

  /**
   * analytics_heatmap: the `limit` most recent meetings, oldest first, against
   * the active departments; one cell per (department, meeting).
   */
  function Heatmap(meetings: map<int, Meeting>, sections: map<int, Section>, departments: map<int, Department>,
                   bound: int, limit: nat): (r: seq<seq<Cell>>)
    ensures |r| == |ActiveDepartments(departments, bound)|
    ensures forall i :: 0 <= i < |r| ==> |r[i]| == |RecentMeetings(meetings, bound, limit)|
    ensures forall i, j :: 0 <= i < |r| && 0 <= j < |r[i]| ==>
              r[i][j] == HeatCell(sections, bound, RecentMeetings(meetings, bound, limit)[j].0,
                                  ActiveDepartments(departments, bound)[i].0)
  {
    var ms := RecentMeetings(meetings, bound, limit);
    var ds := ActiveDepartments(departments, bound);
    seq(|ds|, i requires 0 <= i < |ds| =>
      seq(|ms|, j requires 0 <= j < |ms| => HeatCell(sections, bound, ms[j].0, ds[i].0)))
  }

  /** The key of `ORDER BY date DESC`. */
  function ByDateDesc(e: (int, Meeting)): Key {
    [Desc(e.1.date)]
  }

  /** `ORDER BY date DESC LIMIT ?`, then reversed. */
  function RecentMeetings(meetings: map<int, Meeting>, bound: int, limit: nat): (r: seq<(int, Meeting)>)
    ensures |r| <= limit
  {
    Latest(Scan(meetings, bound), limit)
  }

  /** The `limit` latest-dated of `all`, oldest first. */
  function Latest(all: seq<(int, Meeting)>, limit: nat): (r: seq<(int, Meeting)>)
    ensures |r| <= limit
  {
    var newest := SortBy(all, ByDateDesc);
    var top := if |newest| <= limit then newest else newest[..limit];
    Reverse(top)
  }

  /** `DESC` on one text column puts the later string first. */
  lemma DescKeyLe(a: string, b: string)
    requires KeyLe([Desc(a)], [Desc(b)])
    ensures StrLe(b, a)
  {
    if a == b {
      StrLeRefl(a);
    }
  }

  predicate DatesDescend(s: seq<(int, Meeting)>) {
    forall i, j :: 0 <= i < j < |s| ==> StrLe(s[j].1.date, s[i].1.date)
  }

  lemma NewestFirst(all: seq<(int, Meeting)>)
    ensures DatesDescend(SortBy(all, ByDateDesc))
  {
    var newest := SortBy(all, ByDateDesc);
    SortBySorted(all, ByDateDesc);
    forall i, j | 0 <= i < j < |newest|
      ensures StrLe(newest[j].1.date, newest[i].1.date)
    {
      assert KeyLe(ByDateDesc(newest[i]), ByDateDesc(newest[j]));
      DescKeyLe(newest[i].1.date, newest[j].1.date);
    }
  }

  lemma ReversedAscends(top: seq<(int, Meeting)>)
    requires DatesDescend(top)
    ensures var r := Reverse(top);
            forall i, j :: 0 <= i < j < |r| ==> StrLe(r[i].1.date, r[j].1.date)
  {
    var r := Reverse(top);
    forall i, j | 0 <= i < j < |r|
      ensures StrLe(r[i].1.date, r[j].1.date)
    {
      assert r[i] == top[|top| - 1 - i] && r[j] == top[|top| - 1 - j];
    }
  }

  /** The reversal of a prefix of a date-descending sequence holds its latest entries. */
  lemma PrefixIsLatest(newest: seq<(int, Meeting)>, n: nat)
    requires DatesDescend(newest) && n <= |newest|
    ensures forall e, x :: e in newest && e !in Reverse(newest[..n]) && x in Reverse(newest[..n])
              ==> StrLe(e.1.date, x.1.date)
  {
    var r := Reverse(newest[..n]);
    ReversedMembers(newest[..n]);
    forall e, x | e in newest && e !in r && x in r
      ensures StrLe(e.1.date, x.1.date)
    {
      var k :| 0 <= k < |newest| && newest[k] == e;
      assert k >= n by {
        assert forall m :: 0 <= m < n ==> newest[m] == newest[..n][m];
      }
      var i :| 0 <= i < |r| && r[i] == x;
      assert x == newest[n - 1 - i];
    }
  }

  lemma ReversedMembers<T>(s: seq<T>)
    ensures forall x :: x in Reverse(s) <==> x in s
  {
    var r := Reverse(s);
    forall x | x in r
      ensures x in s
    {
      var i :| 0 <= i < |r| && r[i] == x;
      assert s[|s| - 1 - i] == x;
    }
    forall k | 0 <= k < |s|
      ensures s[k] in r
    {
      assert r[|s| - 1 - k] == s[k];
    }
  }

  lemma LatestOf(all: seq<(int, Meeting)>, limit: nat)
    ensures |Latest(all, limit)| == if |all| <= limit then |all| else limit
    ensures forall x :: x in Latest(all, limit) ==> x in all
    ensures var r := Latest(all, limit);
            forall i, j :: 0 <= i < j < |r| ==> StrLe(r[i].1.date, r[j].1.date)
    ensures var r := Latest(all, limit);
            forall e, x :: e in all && e !in r && x in r ==> StrLe(e.1.date, x.1.date)
  {
    var newest := SortBy(all, ByDateDesc);
    NewestFirst(all);
    var n := if |newest| <= limit then |newest| else limit;
    var top := newest[..n];
    assert top == if |newest| <= limit then newest else newest[..limit];
    assert DatesDescend(top);
    ReversedAscends(top);
    PrefixIsLatest(newest, n);
    ReversedMembers(top);
    forall x | x in top
      ensures x in all
    {
      assert x in multiset(newest);
    }
    forall e | e in all
      ensures e in newest
    {
      assert e in multiset(all);
    }
  }

  /**
   * The recent meetings are min(limit, n) of the n meetings, in ascending date
   * order, and no meeting left out is later than one kept.
   */
  lemma RecentMeetingsLatest(meetings: map<int, Meeting>, bound: int, limit: nat)
    ensures var all := Scan(meetings, bound);
            |RecentMeetings(meetings, bound, limit)| == if |all| <= limit then |all| else limit
    ensures forall x :: x in RecentMeetings(meetings, bound, limit) ==> x in Scan(meetings, bound)
    ensures var r := RecentMeetings(meetings, bound, limit);
            forall i, j :: 0 <= i < j < |r| ==> StrLe(r[i].1.date, r[j].1.date)
    ensures var r := RecentMeetings(meetings, bound, limit);
            forall e, x :: e in Scan(meetings, bound) && e !in r && x in r ==> StrLe(e.1.date, x.1.date)
  {
    LatestOf(Scan(meetings, bound), limit);
  }

  function Reverse<T>(s: seq<T>): (r: seq<T>)
    ensures |r| == |s|
    ensures forall i :: 0 <= i < |s| ==> r[i] == s[|s| - 1 - i]
  {
    if s == [] then [] else Reverse(s[1..]) + [s[0]]
  }
}
