/**
 * The Markdown export of one meeting (db.py get_meeting_as_markdown): a
 * heading, the attendance summary, then every section of the meeting in
 * sort_order with its notes and action items, joined by newlines.
 */
module Export {
  import opened Wrappers
  import opened Query
  import opened Tables
  import opened Database

  /** Python's `sep.join(parts)`. */
  function Join(parts: seq<string>, sep: string): string
    decreases |parts|
  {
    if parts == [] then ""
    else if |parts| == 1 then parts[0]
    else Join(parts[..|parts| - 1], sep) + sep + parts[|parts| - 1]
  }

  /** The first part always opens the joined text. */
  lemma {:induction false} JoinStartsWithFirst(parts: seq<string>, sep: string)
    requires parts != []
    ensures parts[0] <= Join(parts, sep)
    decreases |parts|
  {
    if |parts| > 1 {
      var init := parts[..|parts| - 1];
      JoinStartsWithFirst(init, sep);
      assert init[0] == parts[0];
    }
  }

  /** The joined text is as long as the parts plus one separator between each two. */
  lemma {:induction false} JoinLength(parts: seq<string>, sep: string)
    requires parts != []
    ensures |Join(parts, sep)| == TotalLength(parts) + (|parts| - 1) * |sep|
    decreases |parts|
  {
    if |parts| > 1 {
      var n := |parts| - 1;
      var init, last := parts[..n], parts[n];
      JoinLength(init, sep);
      TotalLengthSnoc(init, last);
      assert init + [last] == parts;
      assert |Join(parts, sep)| == |Join(init, sep)| + |sep| + |last|;
      OneMoreSeparator(|Join(init, sep)|, TotalLength(init), |last|, n, |sep|);
    }
  }

  lemma OneMoreSeparator(joined: int, total: int, last: int, n: int, sep: int)
    requires joined == total + (n - 1) * sep
    ensures joined + sep + last == (total + last) + n * sep
  {
  }

  /** Where the k-th part starts in the joined text: the parts before it and one separator after each. */
  function Offset(parts: seq<string>, k: nat, sep: string): nat
    requires k <= |parts|
  {
    TotalLength(parts[..k]) + k * |sep|
  }

  lemma StepProduct(k: int, s: int)
    ensures (k + 1) * s == k * s + s
  {
  }

  /** The next part starts one part and one separator further on. */
  lemma OffsetStep(parts: seq<string>, k: nat, sep: string)
    requires k < |parts|
    ensures Offset(parts, k + 1, sep) == Offset(parts, k, sep) + |parts[k]| + |sep|
  {
    assert parts[..k + 1] == parts[..k] + [parts[k]];
    TotalLengthSnoc(parts[..k], parts[k]);
    StepProduct(k, |sep|);
  }

  /** Offsets into the leading parts do not depend on a part added at the end. */
  lemma OffsetSnoc(parts: seq<string>, x: string, k: nat, sep: string)
    requires k <= |parts|
    ensures Offset(parts + [x], k, sep) == Offset(parts, k, sep)
  {
    assert (parts + [x])[..k] == parts[..k];
  }

  /** One past the joined text, plus a separator, is where a further part would start. */
  lemma JoinEnd(parts: seq<string>, sep: string)
    requires parts != []
    ensures Offset(parts, |parts|, sep) == |Join(parts, sep)| + |sep|
  {
    JoinLength(parts, sep);
    assert parts[..|parts|] == parts;
    StepProduct(|parts| - 1, |sep|);
  }

  lemma SliceOfFront(front: string, back: string, i: nat, j: nat)
    requires i <= j <= |front|
    ensures (front + back)[i..j] == front[i..j]
  {
  }

  lemma SliceOfBack(front: string, back: string, i: nat, j: nat)
    requires |front| <= i <= j <= |front| + |back|
    ensures (front + back)[i..j] == back[i - |front|..j - |front|]
  {
  }

  /** The k-th part sits at its offset in the joined text. */
  lemma {:induction false} PartPlaced(parts: seq<string>, sep: string, k: nat)
    requires k < |parts|
    ensures Offset(parts, k, sep) + |parts[k]| <= |Join(parts, sep)|
    ensures Join(parts, sep)[Offset(parts, k, sep)..Offset(parts, k, sep) + |parts[k]|] == parts[k]
    decreases |parts|
  {
    var n := |parts| - 1;
    var at := Offset(parts, k, sep);
    if n == 0 {
      assert parts[..0] == [];
    } else {
      var init, last := parts[..n], parts[n];
      var front := Join(init, sep);
      assert parts == init + [last];
      OffsetSnoc(init, last, k, sep);
      JoinEnd(init, sep);
      if k < n {
        PartPlaced(init, sep, k);
        assert parts[k] == init[k];
        SliceOfFront(front, sep + last, at, at + |parts[k]|);
      } else {
        assert init[..n] == init;
        SliceOfBack(front + sep, last, at, at + |last|);
      }
    }
  }

  /** Between the k-th part and the next sits exactly one separator. */
  lemma {:induction false} SeparatorPlaced(parts: seq<string>, sep: string, k: nat)
    requires k + 1 < |parts|
    ensures Offset(parts, k, sep) + |parts[k]| + |sep| == Offset(parts, k + 1, sep) <= |Join(parts, sep)|
    ensures Join(parts, sep)[Offset(parts, k, sep) + |parts[k]|..Offset(parts, k + 1, sep)] == sep
    decreases |parts|
  {
    var n := |parts| - 1;
    var init, last := parts[..n], parts[n];
    var front := Join(init, sep);
    assert parts == init + [last];
    OffsetStep(parts, k, sep);
    PartPlaced(parts, sep, k + 1);
    OffsetSnoc(init, last, k, sep);
    OffsetSnoc(init, last, k + 1, sep);
    assert parts[k] == init[k];
    var from := Offset(parts, k, sep) + |parts[k]|;
    if k + 1 < n {
      SeparatorPlaced(init, sep, k);
      SliceOfFront(front, sep + last, from, from + |sep|);
    } else {
      JoinEnd(init, sep);
      assert init[..n] == init;
      OffsetStep(init, k, sep);
      SliceOfFront(front + sep, last, from, from + |sep|);
      SliceOfBack(front, sep, from, from + |sep|);
    }
  }

  /**
   * Read back through slices, the joined text holds every part at its offset,
   * and exactly the separator between each part and the next.
   */
  lemma JoinPlacement(parts: seq<string>, sep: string)
    ensures forall k :: 0 <= k < |parts| ==>
              Offset(parts, k, sep) + |parts[k]| <= |Join(parts, sep)|
              && Join(parts, sep)[Offset(parts, k, sep)..Offset(parts, k, sep) + |parts[k]|] == parts[k]
    ensures forall k :: 0 <= k < |parts| - 1 ==>
              Offset(parts, k, sep) + |parts[k]| + |sep| == Offset(parts, k + 1, sep)
              && Join(parts, sep)[Offset(parts, k, sep) + |parts[k]|..Offset(parts, k + 1, sep)] == sep
  {
    forall k | 0 <= k < |parts|
      ensures Offset(parts, k, sep) + |parts[k]| <= |Join(parts, sep)|
              && Join(parts, sep)[Offset(parts, k, sep)..Offset(parts, k, sep) + |parts[k]|] == parts[k]
    {
      PartPlaced(parts, sep, k);
    }
    forall k | 0 <= k < |parts| - 1
      ensures Offset(parts, k, sep) + |parts[k]| + |sep| == Offset(parts, k + 1, sep)
              && Join(parts, sep)[Offset(parts, k, sep) + |parts[k]|..Offset(parts, k + 1, sep)] == sep
    {
      SeparatorPlaced(parts, sep, k);
    }
  }

  function TotalLength(parts: seq<string>): nat {
    if parts == [] then 0 else |parts[0]| + TotalLength(parts[1..])
  }

  lemma {:induction false} TotalLengthSnoc(parts: seq<string>, x: string)
    ensures TotalLength(parts + [x]) == TotalLength(parts) + |x|
  {
    if parts != [] {
      TotalLengthSnoc(parts[1..], x);
      assert (parts + [x])[1..] == parts[1..] + [x];
    }
  }

  lemma AppendAssoc<T>(a: seq<T>, b: seq<T>, c: seq<T>)
    ensures (a + b) + c == a + (b + c)
  {
  }

  lemma InAppend<T>(x: T, a: seq<T>, b: seq<T>)
    ensures x in a + b <==> x in a || x in b
  {
  }

  lemma PrefixOfPrefix<T>(s: seq<T>, i: nat)
    requires i < |s|
    ensures s[..i + 1][..i] == s[..i] && s[..i + 1][i] == s[i]
  {
  }

  // ------------------------------------------------------------ attendance

  /** The (display name, status) rows of the users in `es` who have an attendance row for the meeting. */
  function AttendeeRows(es: seq<(int, User)>, attendance: map<(int, int), AttendanceStatus>, meetingId: int)
    : seq<(string, AttendanceStatus)>
  {
    if es == [] then []
    else (if (meetingId, es[0].0) in attendance then [(es[0].1.displayName, attendance[(meetingId, es[0].0)])]
          else [])
         + AttendeeRows(es[1..], attendance, meetingId)
  }

  /**
   * The attendance query: the meeting's attendance rows joined with their
   * users (a row whose user is missing drops out), ordered by display name,
   * ties in user id order.
   */
  function Attendees(attendance: map<(int, int), AttendanceStatus>, users: map<int, User>, bound: int,
                     meetingId: int): seq<(string, AttendanceStatus)>
  {
    AttendeeRows(SortBy(Scan(users, bound), (e: (int, User)) => [Asc(e.1.displayName)]), attendance, meetingId)
  }

  /** The display names of the rows with status `status`, in row order. */
  function NamesWith(rows: seq<(string, AttendanceStatus)>, status: AttendanceStatus): seq<string> {
    if rows == [] then []
    else (if rows[0].1 == status then [rows[0].0] else []) + NamesWith(rows[1..], status)
  }

  function Names(rows: seq<(string, AttendanceStatus)>): seq<string> {
    if rows == [] then [] else [rows[0].0] + Names(rows[1..])
  }

  /** Every attendee is listed exactly once, under their own status. */
  lemma {:induction false} AttendancePartition(rows: seq<(string, AttendanceStatus)>)
    ensures multiset(NamesWith(rows, Present)) + multiset(NamesWith(rows, Remote))
            + multiset(NamesWith(rows, Absent)) == multiset(Names(rows))
  {
    if rows != [] {
      AttendancePartition(rows[1..]);
    }
  }

  /** A line per non-empty status list, then a blank line; nothing for a meeting without attendance. */
  function AttendanceLines(rows: seq<(string, AttendanceStatus)>): seq<string> {
    if rows == [] then []
    else
      var present := NamesWith(rows, Present);
      var remote := NamesWith(rows, Remote);
      var absent := NamesWith(rows, Absent);
      (if present != [] then ["**Present:** " + Join(present, ", ")] else [])
      + (if remote != [] then ["**Remote:** " + Join(remote, ", ")] else [])
      + (if absent != [] then ["**Absent:** " + Join(absent, ", ")] else [])
      + [""]
  }

  // -------------------------------------------------------------- sections

  /** One action item: its check box, text, then a HIGH flag and the due date when set. */
  function TodoLine(t: Todo): string {
    "- [" + (if t.done then "x" else " ") + "] " + t.text + TodoExtra(t)
  }

  function TodoExtra(t: Todo): string {
    (if t.priority == High then " [HIGH]" else "")
    + (if t.dueDate.Some? && t.dueDate.value != "" then " (due " + t.dueDate.value + ")" else "")
  }

  /** The box is checked exactly for a done item, and the text follows it. */
  lemma TodoLineShape(t: Todo)
    ensures var line := TodoLine(t);
            && |line| >= 6 + |t.text|
            && line[..6] == (if t.done then "- [x] " else "- [ ] ")
            && line[6..6 + |t.text|] == t.text
  {
  }

  function TodoLines(todos: seq<(int, Todo)>): seq<string> {
    seq(|todos|, i requires 0 <= i < |todos| => TodoLine(todos[i].1))
  }

  /** A section's block: heading, reporter, notes (or a placeholder) and its action items. */
  function SectionLines(s: Section, todos: seq<(int, Todo)>): seq<string> {
    SectionHead(s) + ActionItems(todos)
  }

  function SectionHead(s: Section): seq<string> {
    [(if s.isSpecial then "### " else "## ") + s.name]
    + (if s.reporter != "" then ["*Reporter: " + s.reporter + "*"] else [])
    + [""]
    + [if s.content != "" then s.content else "*No notes.*"]
    + [""]
  }

  /** Nothing for a section without todos. */
  function ActionItems(todos: seq<(int, Todo)>): seq<string> {
    if todos != [] then ["**Action Items:**"] + TodoLines(todos) + [""] else []
  }

  /** The blocks of `xs`, one after another. */
  function Flatten<T, U>(xs: seq<T>, block: T -> seq<U>): seq<U>
    decreases |xs|
  {
    if xs == [] then [] else Flatten(xs[..|xs| - 1], block) + block(xs[|xs| - 1])
  }

  /** Flattening one more element appends its block. */
  lemma FlattenSnoc<T, U>(xs: seq<T>, block: T -> seq<U>, i: nat)
    requires i < |xs|
    ensures Flatten(xs[..i + 1], block) == Flatten(xs[..i], block) + block(xs[i])
  {
    PrefixOfPrefix(xs, i);
  }

  /** Whatever a block holds is in the flattened whole. */
  lemma {:induction false} InFlatten<T, U>(xs: seq<T>, block: T -> seq<U>, i: int, y: U)
    requires 0 <= i < |xs| && y in block(xs[i])
    ensures y in Flatten(xs, block)
    decreases |xs|
  {
    var last := |xs| - 1;
    if i < last {
      assert xs[..last][i] == xs[i];
      InFlatten(xs[..last], block, i, y);
    }
  }

  /** A section's block, with the todos `todosOf` gives for its id. */
  function BlockOf(todosOf: int -> seq<(int, Todo)>): ((int, Section)) -> seq<string> {
    (e: (int, Section)) => SectionLines(e.1, todosOf(e.0))
  }

  /** Each section's todos as the export queries them (ORDER BY done, created_at). */
  function TodosBySection(todos: map<int, Todo>, bound: int): int -> seq<(int, Todo)> {
    (sectionId: int) => SectionTodos(todos, bound, sectionId)
  }

  /** The export's lines for an existing meeting. */
  function ExportLines(meetings: map<int, Meeting>, sections: map<int, Section>, todos: map<int, Todo>,
                       users: map<int, User>, attendance: map<(int, int), AttendanceStatus>, bound: int,
                       meetingId: int): seq<string>
    requires meetingId in meetings
  {
    ["# Standup — " + meetings[meetingId].date, ""]
    + AttendanceLines(Attendees(attendance, users, bound, meetingId))
    + Flatten(SectionsOf(sections, bound, meetingId), BlockOf(TodosBySection(todos, bound)))
  }

  /** The whole export; None for a missing meeting. */
  function Markdown(meetings: map<int, Meeting>, sections: map<int, Section>, todos: map<int, Todo>,
                    users: map<int, User>, attendance: map<(int, int), AttendanceStatus>, bound: int,
                    meetingId: int): Option<string>
  {
    if meetingId !in meetings then None
    else Some(Join(ExportLines(meetings, sections, todos, users, attendance, bound, meetingId), "\n"))
  }

  /** An existing meeting's export opens with its dated heading; a missing one has none. */
  lemma ExportOpensWithHeading(meetings: map<int, Meeting>, sections: map<int, Section>, todos: map<int, Todo>,
                               users: map<int, User>, attendance: map<(int, int), AttendanceStatus>,
                               bound: int, meetingId: int)
    ensures var md := Markdown(meetings, sections, todos, users, attendance, bound, meetingId);
            && (md.None? <==> meetingId !in meetings)
            && (md.Some? ==> "# Standup — " + meetings[meetingId].date <= md.value)
  {
    if meetingId in meetings {
      JoinStartsWithFirst(ExportLines(meetings, sections, todos, users, attendance, bound, meetingId), "\n");
    }
  }

  /** Every section of the export's list gets its own block, and every one of its todos a line. */
  lemma EveryTodoListed(secs: seq<(int, Section)>, todosOf: int -> seq<(int, Todo)>, i: int, j: int)
    requires 0 <= i < |secs| && 0 <= j < |todosOf(secs[i].0)|
    ensures TodoLine(todosOf(secs[i].0)[j].1) in Flatten(secs, BlockOf(todosOf))
  {
    TodoInSection(secs[i].1, todosOf(secs[i].0), j);
    InFlatten(secs, BlockOf(todosOf), i, TodoLine(todosOf(secs[i].0)[j].1));
  }

  /** Each todo of a section has its line in the section's block. */
  lemma TodoInSection(s: Section, ts: seq<(int, Todo)>, j: int)
    requires 0 <= j < |ts|
    ensures TodoLine(ts[j].1) in SectionLines(s, ts)
  {
    var line := TodoLine(ts[j].1);
    assert TodoLines(ts)[j] == line;
    InAppend(line, ["**Action Items:**"], TodoLines(ts));
    InAppend(line, ["**Action Items:**"] + TodoLines(ts), [""]);
    InAppend(line, SectionHead(s), ActionItems(ts));
  }

  /** The action-item lines of one section, appended one by one. */
  method ActionItemsBlock(items: seq<(int, Todo)>) returns (lines: seq<string>)
    ensures lines == ActionItems(items)
  {
    lines := [];
    if items != [] {
      lines := ["**Action Items:**"];
      for j := 0 to |items|
        invariant lines == ["**Action Items:**"] + TodoLines(items[..j])
      {
        var t := items[j].1;
        var check := if t.done then "x" else " ";
        var extra := "";
        if t.priority == High {
          extra := extra + " [HIGH]";
        }
        if t.dueDate.Some? && t.dueDate.value != "" {
          extra := extra + " (due " + t.dueDate.value + ")";
        }
        assert extra == TodoExtra(t);
        assert TodoLines(items[..j + 1]) == TodoLines(items[..j]) + [TodoLine(t)];
        lines := lines + ["- [" + check + "] " + t.text + extra];
      }
      assert items[..|items|] == items;
      lines := lines + [""];
    }
  }

  /**
   * get_meeting_as_markdown: builds the lines section by section and joins
   * them; None for a missing meeting.
   */
  method MeetingAsMarkdown(store: Store, meetingId: int) returns (md: Option<string>)
    ensures md == Markdown(store.meetings, store.sections, store.todos, store.users, store.attendance,
                           store.nextId, meetingId)
  {
    if meetingId !in store.meetings {
      return None;
    }
    var attendance := AttendanceLines(Attendees(store.attendance, store.users, store.nextId, meetingId));
    var lines := ["# Standup — " + store.meetings[meetingId].date, ""] + attendance;
    ghost var head := lines;
    var block := BlockOf(TodosBySection(store.todos, store.nextId));
    var secs := SectionsOf(store.sections, store.nextId, meetingId);
    for i := 0 to |secs|
      invariant lines == head + Flatten(secs[..i], block)
    {
      var actions := ActionItemsBlock(SectionTodos(store.todos, store.nextId, secs[i].0));
      var next := SectionHead(secs[i].1) + actions;
      ghost var done := Flatten(secs[..i], block);
      assert next == block(secs[i]);
      FlattenSnoc(secs, block, i);
      AppendAssoc(head, done, next);
      lines := lines + next;
    }
    assert secs[..|secs|] == secs;
    md := Some(Join(lines, "\n"));
  }
}
