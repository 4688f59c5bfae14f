/**
 * The mutating half of db.py: the store as an object whose tables are map
 * fields that each operation reassigns, with one auto-increment counter for
 * new row ids. Every operation is atomic (one transaction in the source).
 * Beside the class sit the functions that say what the multi-row operations
 * produce, and the lemmas that state the source's promises about them.
 */
module Database {
  import opened Wrappers
  import opened Query
  import opened Tables

  // ------------------------------------------------ meeting creation plans

  /** A verbatim copy of another meeting's sections (content included). */
  function CopyPlan(rows: seq<(int, Section)>, meetingId: int): (r: seq<Section>)
    ensures |r| == |rows|
    ensures forall s :: s in r ==> s.meetingId == meetingId
  {
    seq(|rows|, i requires 0 <= i < |rows| => CopyOf(rows[i].1, meetingId))
  }

  /** One empty section per department, snapshotting it and its primary reporter. */
  function DepartmentPlan(meetingId: int, depts: seq<(int, Department)>, reporters: seq<ReporterRow>,
                          users: map<int, User>): (r: seq<Section>)
    ensures |r| == |depts|
    ensures forall s :: s in r ==> s.meetingId == meetingId
  {
    seq(|depts|, i requires 0 <= i < |depts| =>
      DepartmentSection(meetingId, depts[i].0, depts[i].1, reporters, users, "", depts[i].1.sortOrder))
  }

  /** The built-in section list, the i-th with sort_order i. */
  function DefaultPlan(meetingId: int): (r: seq<Section>)
    ensures |r| == |DefaultSections|
    ensures forall s :: s in r ==> s.meetingId == meetingId
  {
    seq(|DefaultSections|, i requires 0 <= i < |DefaultSections| => DefaultSection(meetingId, i))
  }

  /**
   * The sections create_meeting gives the new meeting `meetingId`, looked up
   * after the meeting row itself has been inserted (`meetings` holds it):
   * a copy of the meeting dated `copyFrom` when there is one, else one per
   * active department, else the built-in list.
   */
  function MeetingPlan(meetings: map<int, Meeting>, sections: map<int, Section>,
                       departments: map<int, Department>, reporters: seq<ReporterRow>, users: map<int, User>,
                       bound: int, meetingId: int, copyFrom: string): (r: seq<Section>)
    ensures forall s :: s in r ==> s.meetingId == meetingId
  {
    var prev := if copyFrom != "" then FindMeetingByDate(meetings, bound, copyFrom) else None;
    if prev.Some? then CopyPlan(SectionsOf(sections, bound, prev.value), meetingId)
    else
      var depts := ActiveDepartments(departments, bound);
      if depts != [] then DepartmentPlan(meetingId, depts, reporters, users) else DefaultPlan(meetingId)
  }

  /** Copy mode: the new meeting receives every section of the source meeting, content included, and no other. */
  lemma CopyModeIsVerbatim(meetings: map<int, Meeting>, sections: map<int, Section>,
                           departments: map<int, Department>, reporters: seq<ReporterRow>, users: map<int, User>,
                           bound: int, meetingId: int, copyFrom: string, source: int)
    requires copyFrom != "" && FindMeetingByDate(meetings, bound, copyFrom) == Some(source)
    ensures var plan := MeetingPlan(meetings, sections, departments, reporters, users, bound, meetingId, copyFrom);
            forall s :: s in plan <==>
              exists k :: k in sections && 0 <= k < bound && sections[k].meetingId == source
                          && s == sections[k].(meetingId := meetingId, updatedAt := None)
  {
    SectionsOfMembers(sections, bound, source);
    var rows := SectionsOf(sections, bound, source);
    var plan := CopyPlan(rows, meetingId);
    forall s | s in plan
      ensures exists k :: k in sections && 0 <= k < bound && sections[k].meetingId == source
                          && s == sections[k].(meetingId := meetingId, updatedAt := None)
    {
      var i :| 0 <= i < |plan| && plan[i] == s;
      assert rows[i] in rows;
    }
    forall k | k in sections && 0 <= k < bound && sections[k].meetingId == source
      ensures sections[k].(meetingId := meetingId, updatedAt := None) in plan
    {
      assert (k, sections[k]) in rows;
      var i :| 0 <= i < |rows| && rows[i] == (k, sections[k]);
      assert plan[i] == CopyOf(sections[k], meetingId);
    }
  }

  /**
   * Blank mode: with no copy source and at least one active department, each
   * active department gets one empty section snapshotting its name,
   * sort_order, is_special and current primary reporter, and nothing else is
   * created.
   */
  lemma BlankModeSnapshotsDepartments(meetings: map<int, Meeting>, sections: map<int, Section>,
                                      departments: map<int, Department>, reporters: seq<ReporterRow>,
                                      users: map<int, User>, bound: int, meetingId: int, copyFrom: string)
    requires copyFrom == "" || FindMeetingByDate(meetings, bound, copyFrom).None?
    requires ActiveDepartments(departments, bound) != []
    ensures var plan := MeetingPlan(meetings, sections, departments, reporters, users, bound, meetingId, copyFrom);
            && |plan| == |ActiveDepartments(departments, bound)|
            && (forall s :: s in plan ==>
                  && s.meetingId == meetingId && s.content == "" && s.departmentId.Some?
                  && var k := s.departmentId.value;
                     && k in departments && 0 <= k < bound && !departments[k].isArchived
                     && s.name == departments[k].name && s.sortOrder == departments[k].sortOrder
                     && s.isSpecial == departments[k].isSpecial)
            && (forall k :: k in departments && 0 <= k < bound && !departments[k].isArchived ==>
                  DepartmentSection(meetingId, k, departments[k], reporters, users, "", departments[k].sortOrder) in plan)
  {
    ActiveDepartmentsMembers(departments, bound);
    var depts := ActiveDepartments(departments, bound);
    var plan := DepartmentPlan(meetingId, depts, reporters, users);
    forall s | s in plan
      ensures && s.meetingId == meetingId && s.content == "" && s.departmentId.Some?
              && var k := s.departmentId.value;
                 && k in departments && 0 <= k < bound && !departments[k].isArchived
                 && s.name == departments[k].name && s.sortOrder == departments[k].sortOrder
                 && s.isSpecial == departments[k].isSpecial
    {
      var i :| 0 <= i < |plan| && plan[i] == s;
      assert depts[i] in depts;
    }
    forall k | k in departments && 0 <= k < bound && !departments[k].isArchived
      ensures DepartmentSection(meetingId, k, departments[k], reporters, users, "", departments[k].sortOrder) in plan
    {
      assert (k, departments[k]) in depts;
      var i :| 0 <= i < |depts| && depts[i] == (k, departments[k]);
      assert plan[i] == DepartmentSection(meetingId, k, departments[k], reporters, users, "", departments[k].sortOrder);
    }
  }

  /** Fallback mode: with no copy source and no active department, the nine built-in sections, i-th at sort_order i. */
  lemma FallbackUsesDefaults(meetings: map<int, Meeting>, sections: map<int, Section>,
                             departments: map<int, Department>, reporters: seq<ReporterRow>,
                             users: map<int, User>, bound: int, meetingId: int, copyFrom: string)
    requires copyFrom == "" || FindMeetingByDate(meetings, bound, copyFrom).None?
    requires forall k :: k in departments && 0 <= k < bound ==> departments[k].isArchived
    ensures var plan := MeetingPlan(meetings, sections, departments, reporters, users, bound, meetingId, copyFrom);
            && |plan| == 9
            && forall i :: 0 <= i < 9 ==>
                 && plan[i].name == DefaultSections[i].0 && plan[i].sortOrder == i
                 && plan[i].isSpecial == (i >= 7) && plan[i].content == ""
                 && plan[i].departmentId.None? && plan[i].meetingId == meetingId
  {
    ActiveDepartmentsMembers(departments, bound);
    var depts := ActiveDepartments(departments, bound);
    if depts != [] {
      assert false;
    }
    assert MeetingPlan(meetings, sections, departments, reporters, users, bound, meetingId, copyFrom)
        == DefaultPlan(meetingId);
  }

  /**
   * Copying from the new meeting's own date finds the new, still empty
   * meeting, so the meeting is created with no sections at all (neither a
   * copy nor the department fallback).
   */
  lemma SelfCopyIsEmpty(meetings: map<int, Meeting>, sections: map<int, Section>,
                        departments: map<int, Department>, reporters: seq<ReporterRow>,
                        users: map<int, User>, bound: int, meetingId: int)
    requires meetingId in meetings && 0 <= meetingId < bound && meetings[meetingId].date != ""
    requires UniqueBy(meetings, MeetingDate)
    requires forall k :: k in sections ==> sections[k].meetingId != meetingId
    ensures MeetingPlan(meetings, sections, departments, reporters, users, bound, meetingId,
                        meetings[meetingId].date) == []
  {
    var date := meetings[meetingId].date;
    FindMeetingByDateFound(meetings, bound, date);
    var prev := FindMeetingByDate(meetings, bound, date);
    assert prev.Some?;
    assert KeyAt(meetings, MeetingDate, prev.value) == KeyAt(meetings, MeetingDate, meetingId);
    SectionsOfMembers(sections, bound, meetingId);
    var rows := SectionsOf(sections, bound, meetingId);
    if rows != [] {
      assert false;
    }
  }

  // ---------------------------------------------------------------- todos

  /** toggle_todo's update: completing stamps completed_at, reopening clears it. */
  function Toggled(t: Todo, now: string): (r: Todo)
    ensures r.done == !t.done
    ensures r.completedAt == if r.done then Some(now) else None
    ensures r.(done := t.done, completedAt := t.completedAt) == t
  {
    if t.done then t.(done := false, completedAt := None) else t.(done := true, completedAt := Some(now))
  }

  /**
   * Toggling twice gives back the todo's done flag and every other field; an
   * open todo comes back exactly, a done one with the second toggle's time.
   */
  lemma {:induction false} ToggleTwice(t: Todo, first: string, second: string)
    requires t.done <==> t.completedAt.Some?
    ensures !t.done ==> Toggled(Toggled(t, first), second) == t
    ensures t.done ==> Toggled(Toggled(t, first), second) == t.(completedAt := Some(second))
  {
    var once := Toggled(t, first);
    assert once.done == !t.done;
    var twice := Toggled(once, second);
    assert twice.done == t.done;
    assert twice.(done := once.done, completedAt := once.completedAt) == once;
    assert once.(done := t.done, completedAt := t.completedAt) == t;
  }

  /**
   * carry_forward_todo's target: the first section of the target meeting with
   * the original's department (when it has one), else the first one with the
   * original's name.
   */
  function CarryTarget(sections: map<int, Section>, bound: int, orig: Section, targetMeetingId: int)
    : (r: Option<int>)
    ensures r.Some? ==> r.value in sections && 0 <= r.value < bound
                        && sections[r.value].meetingId == targetMeetingId
                        && ((Truthy(orig.departmentId) && sections[r.value].departmentId == orig.departmentId)
                            || sections[r.value].name == orig.name)
    ensures Truthy(orig.departmentId)
            && (exists k :: k in sections && 0 <= k < bound && sections[k].meetingId == targetMeetingId
                            && sections[k].departmentId == orig.departmentId)
            ==> r.Some? && sections[r.value].departmentId == orig.departmentId
    ensures r.None? <==> forall k :: k in sections && 0 <= k < bound && sections[k].meetingId == targetMeetingId
                                    ==> sections[k].name != orig.name
                                        && !(Truthy(orig.departmentId) && sections[k].departmentId == orig.departmentId)
  {
    ScanMembers(sections, bound);
    var rows := Scan(sections, bound);
    assert forall k :: k in sections && 0 <= k < bound ==> (k, sections[k]) in rows;
    var byDept := if Truthy(orig.departmentId)
                  then First(rows, (e: (int, Section)) => e.1.meetingId == targetMeetingId
                                                         && e.1.departmentId == orig.departmentId)
                  else None;
    if byDept.Some? then Some(byDept.value.0)
    else
      var byName := First(rows, (e: (int, Section)) => e.1.meetingId == targetMeetingId && e.1.name == orig.name);
      if byName.Some? then Some(byName.value.0) else None
  }

  // ---------------------------------------------------------- users

  /** A user row after update_user: each given field is set, and an empty email is stored as NULL. */
  function PatchedUser(u: User, displayName: Option<string>, email: Option<string>, role: Option<Role>,
                       isActive: Option<bool>): User
  {
    u.(displayName := displayName.GetOr(u.displayName),
       email := if email.None? then u.email else if email.value == "" then None else email,
       role := role.GetOr(u.role),
       isActive := isActive.GetOr(u.isActive))
  }

  /** The user table after update_user; an unknown id matches no row. */
  function UsersUpdated(users: map<int, User>, userId: int, displayName: Option<string>, email: Option<string>,
                        role: Option<Role>, isActive: Option<bool>): map<int, User>
  {
    if userId in users then users[userId := PatchedUser(users[userId], displayName, email, role, isActive)] else users
  }

  /** An update changes only the named row, never its username, and a field not given keeps its value. */
  lemma UpdateUserIsLocal(users: map<int, User>, userId: int, displayName: Option<string>, email: Option<string>,
                          role: Option<Role>, isActive: Option<bool>, k: int)
    requires k in users
    ensures var r := UsersUpdated(users, userId, displayName, email, role, isActive);
            && r.Keys == users.Keys
            && r[k].username == users[k].username
            && r[k].mustChangePassword == users[k].mustChangePassword
            && (k != userId ==> r[k] == users[k])
            && (email.None? ==> r[k].email == users[k].email)
            && (role.None? ==> r[k].role == users[k].role)
            && (isActive.None? ==> r[k].isActive == users[k].isActive)
  {
  }

  // ---------------------------------------------------------- departments

  /** The last position of `k` in `ids`. */
  function LastIndex(ids: seq<int>, k: int): (r: nat)
    requires k in ids
    ensures r < |ids| && ids[r] == k
    ensures forall j :: r < j < |ids| ==> ids[j] != k
    decreases |ids|
  {
    if ids[|ids| - 1] == k then |ids| - 1
    else
      assert k in ids[..|ids| - 1] by {
        var i :| 0 <= i < |ids| && ids[i] == k;
        assert ids[..|ids| - 1][i] == k;
      }
      LastIndex(ids[..|ids| - 1], k)
  }

  /** The departments after reorder_departments' updates for the first |ids| positions. */
  function Reordered(departments: map<int, Department>, ids: seq<int>): map<int, Department>
    decreases |ids|
  {
    if ids == [] then departments
    else
      var before := Reordered(departments, ids[..|ids| - 1]);
      var k := ids[|ids| - 1];
      if k in before then before[k := before[k].(sortOrder := |ids| - 1)] else before
  }

  /**
   * Reordering keeps the same departments and changes only sort orders: a
   * listed department takes the last position it is listed at, an unlisted
   * one keeps its order, and unknown ids are ignored.
   */
  lemma {:induction false} ReorderedSpec(departments: map<int, Department>, ids: seq<int>)
    ensures Reordered(departments, ids).Keys == departments.Keys
    ensures forall k :: k in departments ==>
              Reordered(departments, ids)[k]
                == departments[k].(sortOrder := if k in ids then LastIndex(ids, k) else departments[k].sortOrder)
    decreases |ids|
  {
    if ids != [] {
      var init := ids[..|ids| - 1];
      ReorderedSpec(departments, init);
      assert ids == init + [ids[|ids| - 1]];
      forall k | k in departments
        ensures Reordered(departments, ids)[k]
                  == departments[k].(sortOrder := if k in ids then LastIndex(ids, k) else departments[k].sortOrder)
      {
        if k != ids[|ids| - 1] && k in ids {
          var i :| 0 <= i < |ids| && ids[i] == k;
          assert init[i] == k;
          assert LastIndex(ids, k) == LastIndex(init, k);
        }
      }
    }
  }

  /** A reorder by a list without repeats gives the department at position i sort_order i. */
  lemma ReorderByPosition(departments: map<int, Department>, ids: seq<int>, i: int)
    requires forall a, b :: 0 <= a < b < |ids| ==> ids[a] != ids[b]
    requires 0 <= i < |ids| && ids[i] in departments
    ensures ids[i] in Reordered(departments, ids) && Reordered(departments, ids)[ids[i]].sortOrder == i
  {
    ReorderedSpec(departments, ids);
    assert ids[i] in ids;
    var j := LastIndex(ids, ids[i]);
    assert j == i;
  }

  /** department_reporter rows for a list of (user_id, is_primary) entries, in order. */
  function ReporterRows(departmentId: int, entries: seq<(int, bool)>): (r: seq<ReporterRow>)
    ensures |r| == |entries|
    ensures forall row :: row in r ==> row.departmentId == departmentId
  {
    seq(|entries|, i requires 0 <= i < |entries| => ReporterRow(departmentId, entries[i].0, entries[i].1))
  }

  /** The reporter table after set_department_reporters: other departments' rows, then the new ones. */
  function ReplacedReporters(reporters: seq<ReporterRow>, departmentId: int, entries: seq<(int, bool)>)
    : seq<ReporterRow>
  {
    Where(reporters, (r: ReporterRow) => r.departmentId != departmentId) + ReporterRows(departmentId, entries)
  }

  /** Replace-all: the department's rows are exactly the new entries, in order. */
  lemma ReplaceAllReporters(reporters: seq<ReporterRow>, departmentId: int, entries: seq<(int, bool)>)
    ensures Where(ReplacedReporters(reporters, departmentId, entries), (r: ReporterRow) => r.departmentId == departmentId)
            == ReporterRows(departmentId, entries)
  {
    var mine := (r: ReporterRow) => r.departmentId == departmentId;
    var kept := Where(reporters, (r: ReporterRow) => r.departmentId != departmentId);
    var added := ReporterRows(departmentId, entries);
    WhereAppend(kept, added, mine);
    WhereMembers(reporters, (r: ReporterRow) => r.departmentId != departmentId);
    WhereNone(kept, mine);
    WhereAll(added, mine);
  }

  /** Replace-all touches no other department's rows, nor their order. */
  lemma ReplaceKeepsOthers(reporters: seq<ReporterRow>, departmentId: int, entries: seq<(int, bool)>, other: int)
    requires other != departmentId
    ensures Where(ReplacedReporters(reporters, departmentId, entries), (r: ReporterRow) => r.departmentId == other)
            == Where(reporters, (r: ReporterRow) => r.departmentId == other)
  {
    var theirs := (r: ReporterRow) => r.departmentId == other;
    var kept := Where(reporters, (r: ReporterRow) => r.departmentId != departmentId);
    var added := ReporterRows(departmentId, entries);
    WhereAppend(kept, added, theirs);
    WhereNone(added, theirs);
    WhereNarrow(reporters, (r: ReporterRow) => r.departmentId != departmentId, theirs);
  }

  // ------------------------------------------------------------ attendance

  /** set_attendance's status rule: anything but absent or remote is stored as present. */
  function ParseAttendance(status: string): (r: AttendanceStatus)
    ensures r == Absent <==> status == "absent"
    ensures r == Remote <==> status == "remote"
  {
    if status == "absent" then Absent else if status == "remote" then Remote else Present
  }

  /** create_department's sort_order: one past the largest of all departments, archived included; 0 when none. */
  function NextSortOrder(departments: map<int, Department>, bound: int): (r: int)
    requires IdsBelow(departments, bound)
    ensures forall k :: k in departments ==> departments[k].sortOrder < r
    ensures departments == map[] ==> r == 0
    ensures departments != map[] ==> exists k :: k in departments && departments[k].sortOrder == r - 1
  {
    ScanMembers(departments, bound);
    var all := Scan(departments, bound);
    assert forall k :: k in departments ==> (k, departments[k]) in all;
    if departments == map[] then
      0
    else
      assert all != [] by {
        var k :| k in departments;
        assert (k, departments[k]) in all;
      }
      MaxSortOrder(all) + 1
  }

  /** update_template's metadata change: the given fields of an existing template; nothing for a missing one. */
  function Renamed(templates: map<int, Template>, templateId: int, name: Option<string>,
                   description: Option<string>): (r: map<int, Template>)
    ensures r.Keys == templates.Keys
    ensures forall k :: k in templates && k != templateId ==> r[k] == templates[k]
  {
    if templateId in templates
    then templates[templateId := templates[templateId].(name := name.GetOr(templates[templateId].name),
                                                        description := description.GetOr(templates[templateId].description))]
    else templates
  }

  /** `DELETE FROM template_section WHERE template_id = ?`. */
  function WithoutTemplate(rows: map<int, TemplateSection>, templateId: int): (r: map<int, TemplateSection>)
    ensures forall k :: k in r <==> k in rows && rows[k].templateId != templateId
    ensures forall k :: k in r ==> r[k] == rows[k]
  {
    map k | k in rows && rows[k].templateId != templateId :: rows[k]
  }

  /** The section a todo row belongs to (the grouping key of get_todos_by_meeting). */
  function TodoSection(e: (int, Todo)): int {
    e.1.sectionId
  }

  // ------------------------------------------------------------ the store

  /** Every section belongs to a meeting that exists. */
  predicate SectionsLinked(sections: map<int, Section>, meetings: map<int, Meeting>) {
    forall k :: k in sections ==> sections[k].meetingId in meetings
  }

  /** Every todo belongs to a section that exists. */
  predicate TodosLinked(todos: map<int, Todo>, sections: map<int, Section>) {
    forall k :: k in todos ==> todos[k].sectionId in sections
  }

  /** completed_at is set exactly when the todo is done. */
  predicate CompletionStamped(todos: map<int, Todo>) {
    forall k :: k in todos ==> (todos[k].done <==> todos[k].completedAt.Some?)
  }

  class Store {
    var users: map<int, User>
    var meetings: map<int, Meeting>
    var sections: map<int, Section>
    var todos: map<int, Todo>
    var departments: map<int, Department>
    var reporters: seq<ReporterRow>
    var templates: map<int, Template>
    var templateSections: map<int, TemplateSection>
    var attendance: map<(int, int), AttendanceStatus>
    var nextId: int

    /** Every row id was issued before `nextId`. */
    ghost predicate Issued()
      reads this
    {
      && nextId >= 1
      && IdsBelow(users, nextId) && IdsBelow(meetings, nextId) && IdsBelow(sections, nextId)
      && IdsBelow(todos, nextId) && IdsBelow(departments, nextId) && IdsBelow(templates, nextId)
      && IdsBelow(templateSections, nextId)
    }

    /** The UNIQUE columns are unique. */
    ghost predicate Unique()
      reads this
    {
      UniqueBy(users, Username) && UniqueBy(meetings, MeetingDate) && UniqueBy(departments, DepartmentName)
      && UniqueBy(templates, TemplateName)
    }

    /** Rows point at rows that exist, and completion is stamped. */
    ghost predicate Linked()
      reads this
    {
      SectionsLinked(sections, meetings) && TodosLinked(todos, sections) && CompletionStamped(todos)
    }

    ghost predicate Valid()
      reads this
    {
      Issued() && Unique() && Linked()
    }

    constructor ()
      ensures Valid()
      ensures users == map[] && meetings == map[] && sections == map[] && todos == map[]
      ensures departments == map[] && reporters == [] && templates == map[] && templateSections == map[]
      ensures attendance == map[] && nextId == 1
    {
      users, meetings, sections, todos := map[], map[], map[], map[];
      departments, reporters, templates, templateSections := map[], [], map[], map[];
      attendance, nextId := map[], 1;
    }

    /** create_user: a taken username is refused (the UNIQUE constraint) and nothing changes. */
    method CreateUser(u: User) returns (id: Option<int>)
      requires Valid()
      modifies this`users, this`nextId
      ensures Valid()
      ensures (exists k :: k in old(users) && old(users)[k].username == u.username) ==>
                id.None? && users == old(users) && nextId == old(nextId)
      ensures (forall k :: k in old(users) ==> old(users)[k].username != u.username) ==>
                id == Some(old(nextId)) && users == old(users)[old(nextId) := u] && nextId == old(nextId) + 1
    {
      if exists k :: k in users && users[k].username == u.username {
        return None;
      }
      UniqueByPut(users, Username, nextId, u);
      id := Some(nextId);
      users := users[nextId := u];
      nextId := nextId + 1;
    }

    /** update_user: the given fields of an existing row are set; usernames stay unique. */
    method UpdateUser(userId: int, displayName: Option<string>, email: Option<string>, role: Option<Role>,
                      isActive: Option<bool>)
      requires Valid()
      modifies this`users
      ensures Valid()
      ensures users == UsersUpdated(old(users), userId, displayName, email, role, isActive)
    {
      var updated := UsersUpdated(users, userId, displayName, email, role, isActive);
      UniqueBySameKeys(users, updated, Username);
      users := updated;
    }

    /** The INSERT INTO section loop: the rows take consecutive ids in order. */
    method InsertSections(rows: seq<Section>)
      requires Valid() && forall s :: s in rows ==> s.meetingId in meetings
      modifies this`sections, this`nextId
      ensures Valid()
      ensures sections == Stamp(old(sections), old(nextId), rows) && nextId == old(nextId) + |rows|
    {
      for i := 0 to |rows|
        invariant Valid()
        invariant sections == Stamp(old(sections), old(nextId), rows[..i]) && nextId == old(nextId) + i
      {
        sections := sections[nextId := rows[i]];
        nextId := nextId + 1;
        StampStep(old(sections), old(nextId), rows[..i], rows[i]);
        assert rows[..i + 1] == rows[..i] + [rows[i]];
      }
      assert rows[..|rows|] == rows;
    }

    /** The INSERT INTO template_section loop. */
    method InsertTemplateSections(rows: seq<TemplateSection>)
      requires Valid()
      modifies this`templateSections, this`nextId
      ensures Valid()
      ensures templateSections == Stamp(old(templateSections), old(nextId), rows)
      ensures nextId == old(nextId) + |rows|
    {
      for i := 0 to |rows|
        invariant Valid()
        invariant templateSections == Stamp(old(templateSections), old(nextId), rows[..i])
        invariant nextId == old(nextId) + i
      {
        templateSections := templateSections[nextId := rows[i]];
        nextId := nextId + 1;
        StampStep(old(templateSections), old(nextId), rows[..i], rows[i]);
        assert rows[..i + 1] == rows[..i] + [rows[i]];
      }
      assert rows[..|rows|] == rows;
    }

    /**
     * INSERT INTO meeting, then its sections; the UNIQUE date has been
     * checked by the caller and the sections point at the new row.
     */
    method InsertMeeting(m: Meeting, plan: seq<Section>) returns (id: int)
      requires Valid() && !DateTaken(meetings, m.date)
      requires forall s :: s in plan ==> s.meetingId == nextId
      modifies this`meetings, this`sections, this`nextId
      ensures Valid()
      ensures id == old(nextId) && meetings == old(meetings)[id := m]
      ensures sections == Stamp(old(sections), id + 1, plan) && nextId == id + 1 + |plan|
    {
      UniqueByPut(meetings, MeetingDate, nextId, m);
      id := nextId;
      meetings := meetings[id := m];
      nextId := nextId + 1;
      InsertSections(plan);
    }

    /**
     * create_meeting: a taken date fails and changes nothing; otherwise the
     * meeting row is inserted and then its sections as MeetingPlan says, in
     * plan order with consecutive ids.
     */
    method CreateMeeting(date: string, copyFrom: string, now: string) returns (mid: Option<int>)
      requires Valid()
      modifies this`meetings, this`sections, this`nextId
      ensures Valid()
      ensures DateTaken(old(meetings), date) ==>
                mid.None? && meetings == old(meetings) && sections == old(sections) && nextId == old(nextId)
      ensures !DateTaken(old(meetings), date) ==>
                && mid == Some(old(nextId))
                && meetings == old(meetings)[old(nextId) := Meeting(date, now, Open, None, None, None)]
                && var plan := old(MeetingPlan(meetings[nextId := Meeting(date, now, Open, None, None, None)], sections,
                                               departments, reporters, users, nextId + 1, nextId, copyFrom));
                   sections == Stamp(old(sections), old(nextId) + 1, plan) && nextId == old(nextId) + 1 + |plan|
    {
      if DateTaken(meetings, date) {
        return None;
      }
      var m := Meeting(date, now, Open, None, None, None);
      var plan := MeetingPlan(meetings[nextId := m], sections, departments, reporters, users, nextId + 1, nextId,
                              copyFrom);
      var id := InsertMeeting(m, plan);
      mid := Some(id);
    }

    /**
     * create_meeting_from_template: a taken date fails and changes nothing;
     * otherwise the meeting records the template and receives TemplatePlan's
     * sections for the template's rows in sort_order.
     */
    method CreateMeetingFromTemplate(date: string, templateId: int, now: string) returns (mid: Option<int>)
      requires Valid()
      modifies this`meetings, this`sections, this`nextId
      ensures Valid()
      ensures DateTaken(old(meetings), date) ==>
                mid.None? && meetings == old(meetings) && sections == old(sections) && nextId == old(nextId)
      ensures !DateTaken(old(meetings), date) ==>
                && mid == Some(old(nextId))
                && meetings == old(meetings)[old(nextId) := Meeting(date, now, Open, None, None, Some(templateId))]
                && var plan := old(TemplatePlan(nextId, TemplateSectionsOf(templateSections, nextId + 1, templateId),
                                                departments, reporters, users));
                   sections == Stamp(old(sections), old(nextId) + 1, plan) && nextId == old(nextId) + 1 + |plan|
    {
      if DateTaken(meetings, date) {
        return None;
      }
      var rows := TemplateSectionsOf(templateSections, nextId + 1, templateId);
      var plan := TemplatePlan(nextId, rows, departments, reporters, users);
      TemplatePlanSound(nextId, rows, departments, reporters, users);
      var id := InsertMeeting(Meeting(date, now, Open, None, None, Some(templateId)), plan);
      mid := Some(id);
    }

    /** lock_meeting: false for a missing meeting; an already locked meeting stays as it is. */
    method LockMeeting(meetingId: int, userId: int, now: string) returns (ok: bool)
      requires Valid()
      modifies this`meetings
      ensures Valid()
      ensures ok <==> meetingId in old(meetings)
      ensures ok ==> IsMeetingLocked(meetings, meetingId)
      ensures IsMeetingLocked(old(meetings), meetingId) || meetingId !in old(meetings) ==> meetings == old(meetings)
      ensures meetingId in old(meetings) && !IsMeetingLocked(old(meetings), meetingId) ==>
                meetings == old(meetings)[meetingId := old(meetings)[meetingId].(status := Locked,
                                                        lockedBy := Some(userId), lockedAt := Some(now))]
    {
      if meetingId !in meetings {
        return false;
      }
      if meetings[meetingId].status == Locked {
        return true;
      }
      meetings := meetings[meetingId := meetings[meetingId].(status := Locked, lockedBy := Some(userId),
                                                             lockedAt := Some(now))];
      UniqueBySameKeys(old(meetings), meetings, MeetingDate);
      ok := true;
    }

    /** unlock_meeting: reopens and clears the lock stamp; false only for a missing meeting. */
    method UnlockMeeting(meetingId: int) returns (ok: bool)
      requires Valid()
      modifies this`meetings
      ensures Valid()
      ensures ok <==> meetingId in old(meetings)
      ensures !IsMeetingLocked(meetings, meetingId)
      ensures ok ==> meetings == old(meetings)[meetingId := old(meetings)[meetingId].(status := Open,
                                                              lockedBy := None, lockedAt := None)]
      ensures !ok ==> meetings == old(meetings)
    {
      if meetingId !in meetings {
        return false;
      }
      meetings := meetings[meetingId := meetings[meetingId].(status := Open, lockedBy := None, lockedAt := None)];
      UniqueBySameKeys(old(meetings), meetings, MeetingDate);
      ok := true;
    }

    /** update_section: new content and updated_at; a missing section changes nothing. */
    method UpdateSection(sectionId: int, content: string, now: string)
      requires Valid()
      modifies this`sections
      ensures Valid()
      ensures sectionId in old(sections) ==>
                sections == old(sections)[sectionId := old(sections)[sectionId].(content := content,
                                                                                updatedAt := Some(now))]
      ensures sectionId !in old(sections) ==> sections == old(sections)
    {
      if sectionId in sections {
        sections := sections[sectionId := sections[sectionId].(content := content, updatedAt := Some(now))];
      }
    }

    /**
     * add_todo: a new open todo with the priority normalised and every other
     * field as given. The section must exist (the route checks this first).
     */
    method AddTodo(sectionId: int, text: string, assignedTo: Option<int>, dueDate: Option<string>,
                   priority: string, createdBy: Option<int>, now: string)
      requires Valid() && sectionId in sections
      modifies this`todos, this`nextId
      ensures Valid()
      ensures todos == old(todos)[old(nextId) := Todo(sectionId, text, false, assignedTo, dueDate,
                                                      NormalizePriority(priority), createdBy, now, None)]
      ensures nextId == old(nextId) + 1
    {
      todos := todos[nextId := Todo(sectionId, text, false, assignedTo, dueDate, NormalizePriority(priority),
                                    createdBy, now, None)];
      nextId := nextId + 1;
    }

    /** toggle_todo: flips one todo as Toggled says; a missing id changes nothing. */
    method ToggleTodo(todoId: int, now: string)
      requires Valid()
      modifies this`todos
      ensures Valid()
      ensures todoId in old(todos) ==> todos == old(todos)[todoId := Toggled(old(todos)[todoId], now)]
      ensures todoId !in old(todos) ==> todos == old(todos)
    {
      if todoId !in todos {
        return;
      }
      todos := todos[todoId := Toggled(todos[todoId], now)];
    }

    /** delete_todo: removes the row if there is one. */
    method DeleteTodo(todoId: int)
      requires Valid()
      modifies this`todos
      ensures Valid()
      ensures todos == old(todos) - {todoId}
    {
      todos := todos - {todoId};
    }

    /**
     * carry_forward_todo: copy-and-close. None, with nothing changed, when the
     * todo, its section or a matching target section is missing; otherwise
     * one new open copy in the target section and the original marked done.
     */
    method CarryForward(todoId: int, targetMeetingId: int, now: string) returns (newId: Option<int>)
      requires Valid()
      modifies this`todos, this`nextId
      ensures Valid()
      ensures newId.None? <==>
                todoId !in old(todos) || old(todos)[todoId].sectionId !in sections
                || CarryTarget(sections, old(nextId), sections[old(todos)[todoId].sectionId], targetMeetingId).None?
      ensures newId.None? ==> todos == old(todos) && nextId == old(nextId)
      ensures newId.Some? ==>
                && newId.value == old(nextId) && nextId == old(nextId) + 1
                && var t := old(todos)[todoId];
                   var target := CarryTarget(sections, old(nextId), sections[t.sectionId], targetMeetingId).value;
                   todos == old(todos)[todoId := t.(done := true, completedAt := Some(now))]
                                      [old(nextId) := Todo(target, t.text, false, t.assignedTo, t.dueDate,
                                                           t.priority, t.createdBy, now, None)]
    {
      if todoId !in todos || todos[todoId].sectionId !in sections {
        return None;
      }
      var original := todos[todoId];
      var target := CarryTarget(sections, nextId, sections[original.sectionId], targetMeetingId);
      if target.None? {
        return None;
      }
      todos := todos[todoId := original.(done := true, completedAt := Some(now))]
                    [nextId := Todo(target.value, original.text, false, original.assignedTo, original.dueDate,
                                    original.priority, original.createdBy, now, None)];
      newId := Some(nextId);
      nextId := nextId + 1;
    }

    /**
     * get_todos_by_meeting: the meeting's todos (ORDER BY done, created_at)
     * grouped by section, each group in that order.
     */
    method TodosByMeeting(meetingId: int) returns (groups: map<int, seq<(int, Todo)>>)
      ensures forall sid :: sid in groups <==>
                exists e :: e in MeetingTodos(todos, sections, nextId, meetingId) && e.1.sectionId == sid
      ensures forall sid :: sid in groups ==>
                groups[sid] == Where(MeetingTodos(todos, sections, nextId, meetingId), KeyIs(TodoSection, sid))
    {
      groups := GroupBy(MeetingTodos(todos, sections, nextId, meetingId), TodoSection);
    }

    /**
     * reorder_departments: each listed department's sort_order becomes its
     * position; the updates run in list order.
     */
    method ReorderDepartments(ids: seq<int>)
      requires Valid()
      modifies this`departments
      ensures Valid()
      ensures departments == Reordered(old(departments), ids)
    {
      for i := 0 to |ids|
        invariant departments == Reordered(old(departments), ids[..i])
        invariant departments.Keys == old(departments).Keys
        invariant forall k :: k in departments ==> departments[k].name == old(departments)[k].name
      {
        assert ids[..i + 1][..i] == ids[..i];
        if ids[i] in departments {
          departments := departments[ids[i] := departments[ids[i]].(sortOrder := i)];
        }
      }
      assert ids[..|ids|] == ids;
      UniqueBySameKeys(old(departments), departments, DepartmentName);
    }

    /** set_department_reporters: delete the department's rows, then insert the entries in order. */
    method SetDepartmentReporters(departmentId: int, entries: seq<(int, bool)>)
      requires Valid()
      modifies this`reporters
      ensures Valid()
      ensures reporters == ReplacedReporters(old(reporters), departmentId, entries)
    {
      reporters := Where(reporters, (r: ReporterRow) => r.departmentId != departmentId);
      ghost var kept := reporters;
      for i := 0 to |entries|
        invariant reporters == kept + ReporterRows(departmentId, entries[..i])
      {
        var (userId, isPrimary) := entries[i];
        assert ReporterRows(departmentId, entries[..i + 1])
               == ReporterRows(departmentId, entries[..i]) + [ReporterRow(departmentId, userId, isPrimary)];
        reporters := reporters + [ReporterRow(departmentId, userId, isPrimary)];
      }
      assert entries[..|entries|] == entries;
    }

    /**
     * create_department: a taken name fails and changes nothing; otherwise
     * the department is placed after every existing one (archived included).
     */
    method CreateDepartment(name: string, color: Option<string>, isSpecial: bool) returns (id: Option<int>)
      requires Valid()
      modifies this`departments, this`nextId
      ensures Valid()
      ensures (exists k :: k in old(departments) && old(departments)[k].name == name) ==>
                id.None? && departments == old(departments) && nextId == old(nextId)
      ensures (forall k :: k in old(departments) ==> old(departments)[k].name != name) ==>
                && id == Some(old(nextId)) && nextId == old(nextId) + 1
                && departments == old(departments)[old(nextId) := Department(name, color,
                                     NextSortOrder(old(departments), old(nextId)), isSpecial, false)]
    {
      if exists k :: k in departments && departments[k].name == name {
        return None;
      }
      var d := Department(name, color, NextSortOrder(departments, nextId), isSpecial, false);
      UniqueByPut(departments, DepartmentName, nextId, d);
      departments := departments[nextId := d];
      id := Some(nextId);
      nextId := nextId + 1;
    }

    /** INSERT INTO meeting_template, then its rows; the UNIQUE name has been checked by the caller. */
    method InsertTemplate(t: Template, rows: seq<TemplateSection>) returns (id: int)
      requires Valid() && !TemplateNameTaken(templates, t.name, -1)
      modifies this`templates, this`templateSections, this`nextId
      ensures Valid()
      ensures id == old(nextId) && templates == old(templates)[id := t]
      ensures templateSections == Stamp(old(templateSections), id + 1, rows) && nextId == id + 1 + |rows|
    {
      UniqueByPut(templates, TemplateName, nextId, t);
      id := nextId;
      templates := templates[id := t];
      nextId := nextId + 1;
      InsertTemplateSections(rows);
    }

    /**
     * create_template: a taken name fails and leaves no rows behind; otherwise
     * the template and one row per listed department, the i-th at sort_order i.
     */
    method CreateTemplate(name: string, description: string, createdBy: Option<int>, departmentIds: seq<int>,
                          now: string) returns (tid: Option<int>)
      requires Valid()
      modifies this`templates, this`templateSections, this`nextId
      ensures Valid()
      ensures TemplateNameTaken(old(templates), name, -1) ==>
                tid.None? && templates == old(templates) && templateSections == old(templateSections)
                && nextId == old(nextId)
      ensures !TemplateNameTaken(old(templates), name, -1) ==>
                && tid == Some(old(nextId))
                && templates == old(templates)[old(nextId) := Template(name, description, createdBy, now)]
                && templateSections == Stamp(old(templateSections), old(nextId) + 1,
                                             DepartmentListRows(old(nextId), departmentIds))
                && nextId == old(nextId) + 1 + |departmentIds|
    {
      if TemplateNameTaken(templates, name, -1) {
        return None;
      }
      var id := InsertTemplate(Template(name, description, createdBy, now), DepartmentListRows(nextId, departmentIds));
      tid := Some(id);
    }

    /**
     * save_template_from_meeting: like create_template, with one row per
     * section of the meeting that has a department, in the sections' order.
     */
    method SaveTemplateFromMeeting(meetingId: int, name: string, description: string, createdBy: Option<int>,
                                   now: string) returns (tid: Option<int>)
      requires Valid()
      modifies this`templates, this`templateSections, this`nextId
      ensures Valid()
      ensures TemplateNameTaken(old(templates), name, -1) ==>
                tid.None? && templates == old(templates) && templateSections == old(templateSections)
                && nextId == old(nextId)
      ensures !TemplateNameTaken(old(templates), name, -1) ==>
                && tid == Some(old(nextId))
                && templates == old(templates)[old(nextId) := Template(name, description, createdBy, now)]
                && var rows := old(SavedTemplateRows(nextId, SectionsOf(sections, nextId, meetingId)));
                   templateSections == Stamp(old(templateSections), old(nextId) + 1, rows)
                   && nextId == old(nextId) + 1 + |rows|
    {
      var secs := SectionsOf(sections, nextId, meetingId);
      if TemplateNameTaken(templates, name, -1) {
        return None;
      }
      var id := InsertTemplate(Template(name, description, createdBy, now), SavedTemplateRows(nextId, secs));
      tid := Some(id);
    }

    /**
     * update_template: renaming an existing template to a name another one
     * holds fails and changes nothing; otherwise the given fields are set and,
     * when a department list is given, the template's rows are replaced by it.
     */
    method UpdateTemplate(templateId: int, name: Option<string>, description: Option<string>,
                          departmentIds: Option<seq<int>>) returns (ok: bool)
      requires Valid()
      modifies this`templates, this`templateSections, this`nextId
      ensures Valid()
      ensures !ok <==> templateId in old(templates) && name.Some? && TemplateNameTaken(old(templates), name.value, templateId)
      ensures !ok ==> templates == old(templates) && templateSections == old(templateSections) && nextId == old(nextId)
      ensures ok ==> templates == Renamed(old(templates), templateId, name, description)
      ensures ok && departmentIds.None? ==> templateSections == old(templateSections) && nextId == old(nextId)
      ensures ok && departmentIds.Some? ==>
                && templateSections == Stamp(WithoutTemplate(old(templateSections), templateId), old(nextId),
                                             DepartmentListRows(templateId, departmentIds.value))
                && nextId == old(nextId) + |departmentIds.value|
    {
      if templateId in templates && name.Some? && TemplateNameTaken(templates, name.value, templateId) {
        return false;
      }
      var renamed := Renamed(templates, templateId, name, description);
      if templateId in templates && name.Some? {
        UniqueByPut(templates, TemplateName, templateId, renamed[templateId]);
        assert renamed == templates[templateId := renamed[templateId]];
      } else {
        UniqueBySameKeys(templates, renamed, TemplateName);
      }
      templates := renamed;
      if departmentIds.Some? {
        templateSections := WithoutTemplate(templateSections, templateId);
        InsertTemplateSections(DepartmentListRows(templateId, departmentIds.value));
      }
      ok := true;
    }

    /** set_attendance: upsert of the (meeting, user) row with the parsed status. */
    method SetAttendance(meetingId: int, userId: int, status: string)
      requires Valid()
      modifies this`attendance
      ensures Valid()
      ensures attendance == old(attendance)[(meetingId, userId) := ParseAttendance(status)]
    {
      attendance := attendance[(meetingId, userId) := ParseAttendance(status)];
    }

    /** remove_attendance: the user is no longer tracked for the meeting. */
    method RemoveAttendance(meetingId: int, userId: int)
      requires Valid()
      modifies this`attendance
      ensures Valid()
      ensures attendance == old(attendance) - {(meetingId, userId)}
    {
      attendance := attendance - {(meetingId, userId)};
    }
  }
}
