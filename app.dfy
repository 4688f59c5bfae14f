/**
 * The web handlers' own rules (app.py): the suggested meeting date, the
 * meeting_new fallback chain, the presenter order, the todo dashboard's filter
 * parsing and grouping, and the guards in front of todo_add, the attendance
 * update and the section editor. Every handler here runs behind login_required;
 * the signed-in user is a parameter.
 */
module App {
  import opened Wrappers
  import opened Text
  import opened Query
  import opened Tables
  import opened Database

  /** What a guarded handler answers: `abort(404)`, `abort(403)`, `abort(400)` or its rendered page. */
  datatype Reply = NotFound | Forbidden | BadRequest | Rendered

  // ---------------------------------------------------------------- next Wednesday

  /**
   * `date.weekday()` of a day given as its proleptic Gregorian ordinal
   * (`date.toordinal()`, where day 1 is Monday 1 January of year 1): Monday is 0.
   */
  function Weekday(day: int): int {
    (day + 6) % 7
  }

  const Wednesday: int := 2

  /** next_wednesday: the first Wednesday on or after `today`. */
  function NextWednesday(today: int): (r: int)
    ensures today <= r <= today + 6
    ensures Weekday(r) == Wednesday
    ensures forall d :: today <= d < r ==> Weekday(d) != Wednesday
  {
    var daysAhead := Wednesday - Weekday(today);
    today + (if daysAhead < 0 then daysAhead + 7 else daysAhead)
  }

  /** On a Wednesday the suggestion is today itself. */
  lemma WednesdaySuggestsToday(today: int)
    requires Weekday(today) == Wednesday
    ensures NextWednesday(today) == today
  {
  }

  // ---------------------------------------------------------------- meeting_new

  datatype NewMeetingReply = ToMeetingsList | ToMeeting(id: int)

  /** The template a meeting_new form names: `int()` of the stripped field when it is not blank. */
  function TemplateChoice(templateField: string): (r: Option<int>)
    ensures Blank(templateField) ==> r.None?
    ensures !Blank(templateField) ==> r == ParseInt(templateField)
  {
    match OptionalField(templateField)
    case None => None
    case Some(t) => StripIdempotent(templateField); ParseInt(t)
  }

  /** A template id rendered into the form is the template chosen. */
  lemma TemplateChoiceShow(id: int)
    ensures TemplateChoice(Show(id)) == Some(id)
  {
    ParseShow(id);
    StripEmptyIffBlank(Show(id));
  }

  /**
   * meeting_new (POST): a blank date creates nothing. Otherwise a template id
   * that parses is tried first and anything else falls back to create_meeting
   * with `copy_from`; a date already taken creates nothing either way and
   * leads to the meeting that has it.
   */
  method MeetingNew(store: Store, dateField: string, copyFromField: string, templateField: string, now: string)
    returns (reply: NewMeetingReply)
    requires store.Valid()
    modifies store`meetings, store`sections, store`nextId
    ensures store.Valid()
    ensures var date := Strip(dateField);
            date == "" || DateTaken(old(store.meetings), date) ==>
              store.meetings == old(store.meetings) && store.sections == old(store.sections)
              && store.nextId == old(store.nextId)
    ensures Strip(dateField) == "" ==> reply == ToMeetingsList
    ensures var date := Strip(dateField);
            date != "" && DateTaken(old(store.meetings), date) ==>
              reply.ToMeeting? && reply.id in store.meetings && store.meetings[reply.id].date == date
    ensures var date := Strip(dateField);
            date != "" && !DateTaken(old(store.meetings), date) ==>
              && reply == ToMeeting(old(store.nextId))
              && store.meetings == old(store.meetings)[old(store.nextId) :=
                                     Meeting(date, now, Open, None, None, TemplateChoice(templateField))]
              && store.nextId > old(store.nextId)
    ensures var date := Strip(dateField);
            date != "" && !DateTaken(old(store.meetings), date) && TemplateChoice(templateField).Some? ==>
              var plan := old(TemplatePlan(store.nextId, TemplateSectionsOf(store.templateSections, store.nextId + 1,
                                                                           TemplateChoice(templateField).value),
                                           store.departments, store.reporters, store.users));
              store.sections == Stamp(old(store.sections), old(store.nextId) + 1, plan)
    ensures var date := Strip(dateField);
            date != "" && !DateTaken(old(store.meetings), date) && TemplateChoice(templateField).None? ==>
              var m := Meeting(date, now, Open, None, None, None);
              var plan := old(MeetingPlan(store.meetings[store.nextId := m], store.sections, store.departments,
                                          store.reporters, store.users, store.nextId + 1, store.nextId,
                                          Strip(copyFromField)));
              store.sections == Stamp(old(store.sections), old(store.nextId) + 1, plan)
  {
    var date := Strip(dateField);
    if date == "" {
      return ToMeetingsList;
    }
    var mid: Option<int>;
    var templateId := TemplateChoice(templateField);
    if templateId.Some? {
      mid := store.CreateMeetingFromTemplate(date, templateId.value, now);
      if mid.None? {
        mid := store.CreateMeeting(date, Strip(copyFromField), now);
      }
    } else {
      mid := store.CreateMeeting(date, Strip(copyFromField), now);
    }
    if Truthy(mid) {
      return ToMeeting(mid.value);
    }
    var existing := FindMeetingByDate(store.meetings, store.nextId, date);
    FindMeetingByDateFound(store.meetings, store.nextId, date);
    if existing.Some? {
      return ToMeeting(existing.value);
    }
    reply := ToMeetingsList;
  }

  // ---------------------------------------------------------------- presenter order

  predicate IsRegular(e: (int, Section)) {
    !e.1.isSpecial
  }

  predicate IsSpecial(e: (int, Section)) {
    e.1.isSpecial
  }

  /** meeting_present: the regular sections, then the special ones, each in their given order. */
  function PresenterOrder(sections: seq<(int, Section)>): seq<(int, Section)> {
    Where(sections, IsRegular) + Where(sections, IsSpecial)
  }

  /** The presenter shows every section exactly as often as the meeting has it. */
  lemma PresenterOrderIsPermutation(sections: seq<(int, Section)>)
    ensures multiset(PresenterOrder(sections)) == multiset(sections)
  {
    WhereMultiset(sections, IsRegular);
    WhereMultiset(sections, IsSpecial);
    var r := PresenterOrder(sections);
    assert forall x :: multiset(r)[x] == multiset(sections)[x];
  }

  /** No regular section comes after a special one. */
  lemma PresenterOrderSpecialLast(sections: seq<(int, Section)>)
    ensures var r := PresenterOrder(sections);
            forall i, j :: 0 <= i < j < |r| && r[i].1.isSpecial ==> r[j].1.isSpecial
  {
    var regular := Where(sections, IsRegular);
    var special := Where(sections, IsSpecial);
    WhereMembers(sections, IsRegular);
    WhereMembers(sections, IsSpecial);
    var r := regular + special;
    forall i, j | 0 <= i < j < |r| && r[i].1.isSpecial ensures r[j].1.isSpecial {
      assert r[i] !in regular;
      assert r[j] == special[j - |regular|] && special[j - |regular|] in special;
    }
  }

  /** Within each kind the sections keep the meeting's order. */
  lemma PresenterOrderKeepsOrder(sections: seq<(int, Section)>)
    ensures Where(PresenterOrder(sections), IsRegular) == Where(sections, IsRegular)
    ensures Where(PresenterOrder(sections), IsSpecial) == Where(sections, IsSpecial)
  {
    var regular := Where(sections, IsRegular);
    var special := Where(sections, IsSpecial);
    WhereMembers(sections, IsRegular);
    WhereMembers(sections, IsSpecial);
    WhereAppend(regular, special, IsRegular);
    WhereAppend(regular, special, IsSpecial);
    WhereAll(regular, IsRegular);
    WhereNone(special, IsRegular);
    WhereNone(regular, IsSpecial);
    WhereAll(special, IsSpecial);
    assert regular + [] == regular;
    assert [] + special == special;
  }

  // ---------------------------------------------------------------- todo dashboard

  /** The dashboard's `assignee` argument: the "unassigned" sentinel, a user id, or no filter. */
  function ParseAssignee(field: string): (r: AssigneeParam)
    ensures r == UnassignedOnly <==> field == "unassigned"
    ensures r.AssigneeId? <==> ParseInt(field).Some?
    ensures r.AssigneeId? ==> ParseInt(field) == Some(r.id)
  {
    if field == "unassigned" then UnassignedOnly
    else if field != "" && ParseInt(field).Some? then AssigneeId(ParseInt(field).value)
    else AnyAssignee
  }

  /** A user id rendered into the filter link selects that user. */
  lemma ParseAssigneeShow(id: int)
    ensures ParseAssignee(Show(id)) == AssigneeId(id)
  {
    ParseShow(id);
  }

  /** The dashboard's query arguments; an absent argument is the empty string. */
  function DashboardFilterOf(assignee: string, priority: string, overdue: string, showDone: string)
    : (f: DashboardFilter)
    ensures f.assignedTo == ParseAssignee(assignee)
    ensures f.priority.None? <==> priority == ""
    ensures f.priority.Some? ==> f.priority.value == priority
    ensures f.overdueOnly <==> overdue == "1"
    ensures f.includeDone <==> showDone == "1"
  {
    DashboardFilter(ParseAssignee(assignee), if priority == "" then None else Some(priority),
                    overdue == "1", showDone == "1")
  }

  /** One (meeting date, section name) group: the first row's reporter and meeting, then all its rows. */
  datatype SectionGroup = SectionGroup(reporter: string, meetingId: int, todos: seq<TodoRow>)

  type Grouping = map<string, map<string, SectionGroup>>

  function InGroup(date: string, name: string): TodoRow -> bool {
    (r: TodoRow) => r.meetingDate == date && r.sectionName == name
  }

  /**
   * `grouped` holds one entry per meeting date and, under it, one per section
   * name that occurs in `rows`, each with that pair's rows in order.
   */
  ghost predicate GroupedAs(grouped: Grouping, rows: seq<TodoRow>) {
    && (forall d :: d in grouped <==> exists r :: r in rows && r.meetingDate == d)
    && (forall d, s :: d in grouped ==>
          (s in grouped[d] <==> exists r :: r in rows && r.meetingDate == d && r.sectionName == s))
    && (forall d, s :: d in grouped && s in grouped[d] ==>
          && grouped[d][s].todos == Where(rows, InGroup(d, s))
          && grouped[d][s].todos != []
          && grouped[d][s].reporter == grouped[d][s].todos[0].reporter
          && grouped[d][s].meetingId == grouped[d][s].todos[0].meetingId)
  }

  /** One turn of the grouping loop: open the date and the section if need be, then append the row. */
  function WithRow(grouped: Grouping, r: TodoRow): Grouping {
    var inner := if r.meetingDate in grouped then grouped[r.meetingDate] else map[];
    var group := if r.sectionName in inner then inner[r.sectionName] else SectionGroup(r.reporter, r.meetingId, []);
    grouped[r.meetingDate := inner[r.sectionName := group.(todos := group.todos + [r])]]
  }

  /** After one more row, a group holds its rows so far and is headed by its first one. */
  lemma GroupAfterRow(grouped: Grouping, rows: seq<TodoRow>, x: TodoRow, d: string, s: string)
    requires GroupedAs(grouped, rows)
    requires d in WithRow(grouped, x) && s in WithRow(grouped, x)[d]
    ensures var group := WithRow(grouped, x)[d][s];
            && group.todos == Where(rows + [x], InGroup(d, s))
            && group.todos != []
            && group.reporter == group.todos[0].reporter
            && group.meetingId == group.todos[0].meetingId
  {
    WhereAppend(rows, [x], InGroup(d, s));
    assert Where([x], InGroup(d, s)) == (if InGroup(d, s)(x) then [x] else []) + Where([], InGroup(d, s));
    if !(d in grouped && s in grouped[d]) {
      WhereNone(rows, InGroup(d, s));
    }
  }

  lemma GroupedAppend(grouped: Grouping, rows: seq<TodoRow>, x: TodoRow, after: Grouping, longer: seq<TodoRow>)
    requires GroupedAs(grouped, rows)
    requires after == WithRow(grouped, x) && longer == rows + [x]
    ensures GroupedAs(after, longer)
  {
    forall d: string, s: string | d in after && s in after[d]
      ensures && after[d][s].todos == Where(longer, InGroup(d, s))
              && after[d][s].todos != []
              && after[d][s].reporter == after[d][s].todos[0].reporter
              && after[d][s].meetingId == after[d][s].todos[0].meetingId
    {
      GroupAfterRow(grouped, rows, x, d, s);
    }
    assert forall r :: r in longer <==> r in rows || r == x;
  }

  /** One turn of the grouping loop, on the dictionary as the handler updates it. */
  method AddRow(grouped: Grouping, r: TodoRow) returns (after: Grouping)
    ensures after == WithRow(grouped, r)
  {
    var dateKey, sectionKey := r.meetingDate, r.sectionName;
    ghost var inner := if dateKey in grouped then grouped[dateKey] else map[];
    ghost var group := if sectionKey in inner then inner[sectionKey] else SectionGroup(r.reporter, r.meetingId, []);
    after := grouped;
    if dateKey !in after {
      after := after[dateKey := map[]];
    }
    assert after == grouped[dateKey := inner];
    if sectionKey !in after[dateKey] {
      after := after[dateKey := after[dateKey][sectionKey := SectionGroup(r.reporter, r.meetingId, [])]];
    } else {
      assert inner[sectionKey := group] == inner;
    }
    assert after == grouped[dateKey := inner[sectionKey := group]];
    ghost var grown := group.(todos := group.todos + [r]);
    assert inner[sectionKey := group][sectionKey := grown] == inner[sectionKey := grown];
    after := after[dateKey := after[dateKey][sectionKey :=
               after[dateKey][sectionKey].(todos := after[dateKey][sectionKey].todos + [r])]];
    assert after == grouped[dateKey := inner[sectionKey := grown]];
  }

  /**
   * todos_dashboard's grouping loop over the rows get_all_open_todos returned.
   * Besides the groups, it yields the order of the dictionaries' keys: the dates,
   * and under each date its section names, in the order they were first seen.
   */
  method GroupTodos(rows: seq<TodoRow>) returns (grouped: Grouping, dates: seq<string>, sectionsOf: map<string, seq<string>>)
    ensures GroupedAs(grouped, rows)
    ensures dates == DateKeys(rows)
    ensures sectionsOf.Keys == grouped.Keys
    ensures forall d :: d in sectionsOf ==> sectionsOf[d] == SectionKeys(rows, d)
  {
    grouped, dates, sectionsOf := map[], [], map[];
    for i := 0 to |rows|
      invariant GroupedAs(grouped, rows[..i])
      invariant KeyOrderAs(grouped.Keys, dates, sectionsOf, rows[..i])
    {
      grouped, dates, sectionsOf := GroupRow(grouped, dates, sectionsOf, rows[..i], rows[i]);
      assert rows[..i] + [rows[i]] == rows[..i + 1];
    }
    assert rows[..|rows|] == rows;
  }

  /** One turn of the grouping loop: the row goes into its group, and new keys go last. */
  method GroupRow(grouped: Grouping, dates: seq<string>, sectionsOf: map<string, seq<string>>,
                  ghost seen: seq<TodoRow>, r: TodoRow)
    returns (grouped': Grouping, dates': seq<string>, sectionsOf': map<string, seq<string>>)
    requires GroupedAs(grouped, seen) && KeyOrderAs(grouped.Keys, dates, sectionsOf, seen)
    ensures GroupedAs(grouped', seen + [r]) && KeyOrderAs(grouped'.Keys, dates', sectionsOf', seen + [r])
  {
    GroupKeysAgree(grouped, seen, r);
    KeyOrderAppend(grouped, dates, sectionsOf, seen, r);
    WithRowKeys(grouped, r);
    dates', sectionsOf' := AddKeys(grouped, dates, sectionsOf, r);
    grouped' := AddRow(grouped, r);
    GroupedAppend(grouped, seen, r, grouped', seen + [r]);
  }

  /**
   * Every row lands in the group of its own date and section, as often as it
   * occurs, and in no other group.
   */
  lemma GroupingPlacesEveryRowOnce(grouped: Grouping, rows: seq<TodoRow>, x: TodoRow)
    requires GroupedAs(grouped, rows) && x in rows
    ensures x.meetingDate in grouped && x.sectionName in grouped[x.meetingDate]
    ensures multiset(grouped[x.meetingDate][x.sectionName].todos)[x] == multiset(rows)[x]
    ensures forall d, s :: d in grouped && s in grouped[d] && (d != x.meetingDate || s != x.sectionName) ==>
              x !in grouped[d][s].todos
  {
    WhereMultiset(rows, InGroup(x.meetingDate, x.sectionName));
    forall d: string, s: string | d in grouped && s in grouped[d] && (d != x.meetingDate || s != x.sectionName)
      ensures x !in grouped[d][s].todos
    {
      WhereMembers(rows, InGroup(d, s));
    }
  }

  // The dictionaries keep their keys in insertion order, which the page follows.

  /** The meeting dates of `rows`, each once, in order of first occurrence. */
  function DateKeys(rows: seq<TodoRow>): seq<string>
    decreases |rows|
  {
    if rows == [] then []
    else
      var keys := DateKeys(rows[..|rows| - 1]);
      var d := rows[|rows| - 1].meetingDate;
      if d in keys then keys else keys + [d]
  }

  /** The section names of the rows dated `d`, each once, in order of first occurrence. */
  function SectionKeys(rows: seq<TodoRow>, d: string): seq<string>
    decreases |rows|
  {
    if rows == [] then []
    else
      var keys := SectionKeys(rows[..|rows| - 1], d);
      var x := rows[|rows| - 1];
      if x.meetingDate != d || x.sectionName in keys then keys else keys + [x.sectionName]
  }

  predicate Distinct(s: seq<string>) {
    forall i, j :: 0 <= i < j < |s| ==> s[i] != s[j]
  }

  /** The date keys are exactly the dates that occur, each once. */
  lemma {:induction false} DateKeysMembers(rows: seq<TodoRow>)
    ensures forall d :: d in DateKeys(rows) <==> exists r :: r in rows && r.meetingDate == d
    ensures Distinct(DateKeys(rows))
    decreases |rows|
  {
    if rows != [] {
      var init := rows[..|rows| - 1];
      DateKeysMembers(init);
      assert rows == init + [rows[|rows| - 1]];
      assert forall r :: r in rows <==> r in init || r == rows[|rows| - 1];
    }
  }

  /** The section keys under a date are exactly the section names occurring on it, each once. */
  lemma {:induction false} SectionKeysMembers(rows: seq<TodoRow>, d: string)
    ensures forall s :: s in SectionKeys(rows, d) <==> exists r :: r in rows && r.meetingDate == d && r.sectionName == s
    ensures Distinct(SectionKeys(rows, d))
    decreases |rows|
  {
    if rows != [] {
      var init := rows[..|rows| - 1];
      SectionKeysMembers(init, d);
      assert rows == init + [rows[|rows| - 1]];
      assert forall r :: r in rows <==> r in init || r == rows[|rows| - 1];
    }
  }

  lemma {:induction false} NoSectionKeys(rows: seq<TodoRow>, d: string)
    requires forall r :: r in rows ==> r.meetingDate != d
    ensures SectionKeys(rows, d) == []
    decreases |rows|
  {
    if rows != [] {
      NoSectionKeys(rows[..|rows| - 1], d);
    }
  }

  /** Rows that come newest date first give date keys that strictly descend. */
  lemma {:induction false} DateKeysNewestFirst(rows: seq<TodoRow>)
    requires forall i, j :: 0 <= i < j < |rows| ==> StrLe(rows[j].meetingDate, rows[i].meetingDate)
    ensures forall i, j :: 0 <= i < j < |DateKeys(rows)| ==> StrLt(DateKeys(rows)[j], DateKeys(rows)[i])
    decreases |rows|
  {
    if rows != [] {
      var init := rows[..|rows| - 1];
      var x := rows[|rows| - 1];
      DateKeysNewestFirst(init);
      var keys := DateKeys(init);
      assert DateKeys(rows) == if x.meetingDate in keys then keys else keys + [x.meetingDate];
      if x.meetingDate !in keys {
        DateKeysMembers(init);
        forall i | 0 <= i < |keys|
          ensures StrLt(x.meetingDate, keys[i])
        {
          assert keys[i] in keys;
          var r :| r in init && r.meetingDate == keys[i];
          var k :| 0 <= k < |init| && init[k] == r;
          assert rows[k] == r;
        }
        var grown := keys + [x.meetingDate];
        assert DateKeys(rows) == grown;
        forall i, j | 0 <= i < j < |grown|
          ensures StrLt(grown[j], grown[i])
        {
          if j == |keys| {
            assert grown[j] == x.meetingDate && grown[i] == keys[i];
          } else {
            assert grown[j] == keys[j] && grown[i] == keys[i];
          }
        }
      }
    }
  }

  /** The key orders of the grouped dictionaries, whose dates are `keys`, after the rows seen so far. */
  ghost predicate KeyOrderAs(keys: set<string>, dates: seq<string>, sectionsOf: map<string, seq<string>>,
                             rows: seq<TodoRow>) {
    && dates == DateKeys(rows)
    && sectionsOf.Keys == keys
    && (forall d :: d in sectionsOf ==> sectionsOf[d] == SectionKeys(rows, d))
  }

  /** The key orders after one more row: a new date, or a new section under its date, goes last. */
  function KeysWithRow(grouped: Grouping, dates: seq<string>, sectionsOf: map<string, seq<string>>, r: TodoRow)
    : (seq<string>, map<string, seq<string>>)
  {
    if r.meetingDate !in grouped then (dates + [r.meetingDate], sectionsOf[r.meetingDate := [r.sectionName]])
    else if r.sectionName !in grouped[r.meetingDate] && r.meetingDate in sectionsOf then
      (dates, sectionsOf[r.meetingDate := sectionsOf[r.meetingDate] + [r.sectionName]])
    else (dates, sectionsOf)
  }

  lemma DateKeysSnoc(rows: seq<TodoRow>, x: TodoRow)
    ensures DateKeys(rows + [x]) == if x.meetingDate in DateKeys(rows) then DateKeys(rows) else DateKeys(rows) + [x.meetingDate]
  {
    assert (rows + [x])[..|rows|] == rows;
  }

  lemma SectionKeysSnoc(rows: seq<TodoRow>, x: TodoRow, d: string)
    ensures SectionKeys(rows + [x], d) ==
            if x.meetingDate != d || x.sectionName in SectionKeys(rows, d) then SectionKeys(rows, d)
            else SectionKeys(rows, d) + [x.sectionName]
  {
    assert (rows + [x])[..|rows|] == rows;
  }

  /** The groups and the key orders agree on which dates and sections have been seen. */
  lemma GroupKeysAgree(grouped: Grouping, rows: seq<TodoRow>, x: TodoRow)
    requires GroupedAs(grouped, rows)
    ensures x.meetingDate in grouped <==> x.meetingDate in DateKeys(rows)
    ensures x.meetingDate in grouped ==>
              (x.sectionName in grouped[x.meetingDate] <==> x.sectionName in SectionKeys(rows, x.meetingDate))
    ensures x.meetingDate !in grouped ==> SectionKeys(rows, x.meetingDate) == []
  {
    DateKeysMembers(rows);
    SectionKeysMembers(rows, x.meetingDate);
    if x.meetingDate !in grouped {
      NoSectionKeys(rows, x.meetingDate);
    }
  }

  lemma WithRowKeys(grouped: Grouping, x: TodoRow)
    ensures WithRow(grouped, x).Keys == grouped.Keys + {x.meetingDate}
  {
  }

  lemma KeyOrderAppend(grouped: Grouping, dates: seq<string>, sectionsOf: map<string, seq<string>>,
                       rows: seq<TodoRow>, x: TodoRow)
    requires KeyOrderAs(grouped.Keys, dates, sectionsOf, rows)
    requires x.meetingDate in grouped <==> x.meetingDate in DateKeys(rows)
    requires x.meetingDate in grouped ==>
               (x.sectionName in grouped[x.meetingDate] <==> x.sectionName in SectionKeys(rows, x.meetingDate))
    requires x.meetingDate !in grouped ==> SectionKeys(rows, x.meetingDate) == []
    ensures var next := KeysWithRow(grouped, dates, sectionsOf, x);
            KeyOrderAs(grouped.Keys + {x.meetingDate}, next.0, next.1, rows + [x])
  {
    var next := KeysWithRow(grouped, dates, sectionsOf, x);
    DateKeysSnoc(rows, x);
    NewKeyLists(grouped, sectionsOf, rows, x);
    assert next.1.Keys == grouped.Keys + {x.meetingDate};
    OtherKeyListsKept(sectionsOf, next.1, rows, x);
  }

  /** The list of section keys under the row's own date grows exactly as SectionKeys does. */
  lemma NewKeyLists(grouped: Grouping, sectionsOf: map<string, seq<string>>, rows: seq<TodoRow>, x: TodoRow)
    requires sectionsOf.Keys == grouped.Keys
    requires x.meetingDate in sectionsOf ==> sectionsOf[x.meetingDate] == SectionKeys(rows, x.meetingDate)
    requires x.meetingDate in grouped ==>
               (x.sectionName in grouped[x.meetingDate] <==> x.sectionName in SectionKeys(rows, x.meetingDate))
    requires x.meetingDate !in grouped ==> SectionKeys(rows, x.meetingDate) == []
    ensures var next := KeysWithRow(grouped, [], sectionsOf, x).1;
            && next.Keys == sectionsOf.Keys + {x.meetingDate}
            && next[x.meetingDate] == SectionKeys(rows + [x], x.meetingDate)
            && (forall d :: d in sectionsOf && d != x.meetingDate ==> next[d] == sectionsOf[d])
  {
    SectionKeysSnoc(rows, x, x.meetingDate);
  }

  /** The lists under every other date are unchanged, as SectionKeys under those dates is. */
  lemma OtherKeyListsKept(sectionsOf: map<string, seq<string>>, next: map<string, seq<string>>,
                          rows: seq<TodoRow>, x: TodoRow)
    requires forall d :: d in sectionsOf ==> sectionsOf[d] == SectionKeys(rows, d)
    requires next.Keys == sectionsOf.Keys + {x.meetingDate}
    requires next[x.meetingDate] == SectionKeys(rows + [x], x.meetingDate)
    requires forall d :: d in sectionsOf && d != x.meetingDate ==> next[d] == sectionsOf[d]
    ensures forall d :: d in next ==> next[d] == SectionKeys(rows + [x], d)
  {
    forall d | d in next && d != x.meetingDate
      ensures next[d] == SectionKeys(rows + [x], d)
    {
      SectionKeysSnoc(rows, x, d);
    }
  }

  /** One turn of the loop's key bookkeeping, as the dictionaries gain keys. */
  method AddKeys(grouped: Grouping, dates: seq<string>, sectionsOf: map<string, seq<string>>, r: TodoRow)
    returns (dates': seq<string>, sectionsOf': map<string, seq<string>>)
    ensures (dates', sectionsOf') == KeysWithRow(grouped, dates, sectionsOf, r)
  {
    dates', sectionsOf' := dates, sectionsOf;
    if r.meetingDate !in grouped {
      dates' := dates' + [r.meetingDate];
      sectionsOf' := sectionsOf'[r.meetingDate := [r.sectionName]];
    } else if r.sectionName !in grouped[r.meetingDate] && r.meetingDate in sectionsOf' {
      sectionsOf' := sectionsOf'[r.meetingDate := sectionsOf'[r.meetingDate] + [r.sectionName]];
    }
  }

  /**
   * todos_dashboard: the filters parsed from the query string select and order
   * the joined todo rows, which are then grouped by date and section; the dates
   * come out newest first.
   */
  method TodosDashboard(store: Store, assignee: string, priority: string, overdue: string, showDone: string,
                        today: string) returns (grouped: Grouping, dates: seq<string>, sectionsOf: map<string, seq<string>>)
    ensures var rows := AllOpenTodos(JoinRows(Scan(store.todos, store.nextId), store.sections, store.meetings,
                                              store.users),
                                     DashboardFilterOf(assignee, priority, overdue, showDone), today);
            && GroupedAs(grouped, rows)
            && dates == DateKeys(rows)
            && sectionsOf.Keys == grouped.Keys
            && (forall d :: d in sectionsOf ==> sectionsOf[d] == SectionKeys(rows, d))
    ensures forall i, j :: 0 <= i < j < |dates| ==> StrLt(dates[j], dates[i])
  {
    var rows := AllOpenTodos(JoinRows(Scan(store.todos, store.nextId), store.sections, store.meetings, store.users),
                             DashboardFilterOf(assignee, priority, overdue, showDone), today);
    grouped, dates, sectionsOf := GroupTodos(rows);
    AllOpenTodosOrder(JoinRows(Scan(store.todos, store.nextId), store.sections, store.meetings, store.users),
                      DashboardFilterOf(assignee, priority, overdue, showDone), today);
    DateKeysNewestFirst(rows);
  }

  // ---------------------------------------------------------------- todo_add

  /** todo_add's `assigned_to`: a non-empty value that is not an integer becomes None. */
  function AssignedTo(field: Option<string>): (r: Option<int>)
    ensures field.None? || field.value == "" ==> r.None?
    ensures field.Some? && field.value != "" ==> r == ParseInt(field.value)
  {
    if field.Some? && field.value != "" then ParseInt(field.value) else None
  }

  /** A user id chosen in the form is stored as that id. */
  lemma AssignedToShow(id: int)
    ensures AssignedTo(Some(Show(id))) == Some(id)
  {
    ParseShow(id);
  }

  /**
   * todo_add: a missing section is 404 and a locked meeting 403, before
   * anything is inserted; whitespace-only text inserts nothing; otherwise one
   * open todo is added, created by the signed-in user.
   */
  method TodoAdd(store: Store, sectionId: int, userId: int, textField: string, assignedField: Option<string>,
                 dueField: string, priorityField: Option<string>, now: string) returns (reply: Reply)
    requires store.Valid()
    modifies store`todos, store`nextId
    ensures store.Valid()
    ensures reply == NotFound <==> sectionId !in store.sections
    ensures reply == Forbidden <==>
              sectionId in store.sections && IsMeetingLocked(store.meetings, store.sections[sectionId].meetingId)
    ensures reply != BadRequest
    ensures reply != Rendered || Blank(textField) ==> store.todos == old(store.todos) && store.nextId == old(store.nextId)
    ensures reply == Rendered && !Blank(textField) ==>
              && store.todos == old(store.todos)[old(store.nextId) :=
                                  Todo(sectionId, Strip(textField), false, AssignedTo(assignedField), OptionalField(dueField),
                                       NormalizePriority(priorityField.GetOr("normal")), Some(userId), now, None)]
              && store.nextId == old(store.nextId) + 1
  {
    if sectionId !in store.sections {
      return NotFound;
    }
    if IsMeetingLocked(store.meetings, store.sections[sectionId].meetingId) {
      return Forbidden;
    }
    var text := Strip(textField);
    StripEmptyIffBlank(textField);
    if text != "" {
      var assignedTo := AssignedTo(assignedField);
      var dueDate := OptionalField(dueField);
      var priority := priorityField.GetOr("normal");
      store.AddTodo(sectionId, text, assignedTo, dueDate, priority, Some(userId), now);
    }
    reply := Rendered;
  }

  // ---------------------------------------------------------------- attendance

  /** The JSON body of an attendance update, when it is a non-empty object. */
  datatype AttendanceBody = AttendanceBody(userId: Option<int>, status: Option<string>)

  /**
   * meeting_attendance_update: 404 for a missing meeting, 403 for a non-admin,
   * 400 without a (truthy) `user_id`; status "none" removes the row and any
   * other status, "present" when absent, is upserted as set_attendance parses it.
   */
  method AttendanceUpdate(store: Store, meetingId: int, user: User, body: Option<AttendanceBody>)
    returns (reply: Reply)
    requires store.Valid()
    modifies store`attendance
    ensures store.Valid()
    ensures reply == NotFound <==> meetingId !in store.meetings
    ensures reply == Forbidden <==> meetingId in store.meetings && user.role != Admin
    ensures reply == BadRequest <==>
              meetingId in store.meetings && user.role == Admin && (body.None? || !Truthy(body.value.userId))
    ensures reply != Rendered ==> store.attendance == old(store.attendance)
    ensures reply == Rendered && body.value.status == Some("none") ==>
              store.attendance == old(store.attendance) - {(meetingId, body.value.userId.value)}
    ensures reply == Rendered && body.value.status != Some("none") ==>
              store.attendance == old(store.attendance)[(meetingId, body.value.userId.value) :=
                                                        ParseAttendance(body.value.status.GetOr("present"))]
  {
    if meetingId !in store.meetings {
      return NotFound;
    }
    if user.role != Admin {
      return Forbidden;
    }
    if body.None? {
      return BadRequest;
    }
    var userId := body.value.userId;
    var status := body.value.status.GetOr("present");
    if !Truthy(userId) {
      return BadRequest;
    }
    if status == "none" {
      store.RemoveAttendance(meetingId, userId.value);
    } else {
      store.SetAttendance(meetingId, userId.value, status);
    }
    reply := Rendered;
  }

  // ---------------------------------------------------------------- section editor

  /** section_edit: 404 for a missing section, 403 exactly when can_edit_section refuses. */
  function SectionEdit(meetings: map<int, Meeting>, reporters: seq<ReporterRow>, sections: map<int, Section>,
                       userId: int, user: User, sectionId: int): (reply: Reply)
    ensures reply == NotFound <==> sectionId !in sections
    ensures reply == Forbidden <==>
              sectionId in sections && !CanEditSection(meetings, reporters, userId, user, sections[sectionId])
    ensures reply == Rendered <==>
              sectionId in sections && CanEditSection(meetings, reporters, userId, user, sections[sectionId])
  {
    if sectionId !in sections then NotFound
    else if !CanEditSection(meetings, reporters, userId, user, sections[sectionId]) then Forbidden
    else Rendered
  }

  /** In a locked meeting nobody, admins included, gets the editor. */
  lemma LockedSectionRefused(meetings: map<int, Meeting>, reporters: seq<ReporterRow>, sections: map<int, Section>,
                             userId: int, user: User, sectionId: int)
    requires sectionId in sections && IsMeetingLocked(meetings, sections[sectionId].meetingId)
    ensures SectionEdit(meetings, reporters, sections, userId, user, sectionId) == Forbidden
  {
  }

  /**
   * section_save: the same gate as section_edit; only an allowed save writes
   * the content (an absent field is the empty string).
   */
  method SectionSave(store: Store, userId: int, user: User, sectionId: int, content: string, now: string)
    returns (reply: Reply)
    requires store.Valid()
    modifies store`sections
    ensures store.Valid()
    ensures reply == SectionEdit(store.meetings, store.reporters, old(store.sections), userId, user, sectionId)
    ensures reply != Rendered ==> store.sections == old(store.sections)
    ensures reply == Rendered ==>
              store.sections == old(store.sections)[sectionId := old(store.sections)[sectionId].(content := content,
                                                                                                updatedAt := Some(now))]
  {
    reply := SectionEdit(store.meetings, store.reporters, store.sections, userId, user, sectionId);
    if reply == Rendered {
      store.UpdateSection(sectionId, content, now);
    }
  }
}
