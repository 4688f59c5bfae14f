/**
 * The admin forms' rules: role normalisation and the required fields of a new
 * user, the self-guards of the user editor, the reporter entries of the
 * department form, the template forms' department lists and the reorder guard.
 */
module Admin {
  import opened Wrappers
  import opened Text
  import opened Query
  import opened Tables
  import opened Database
  import opened Auth

  // ---------------------------------------------------------------- roles

  function RoleName(r: Role): string {
    match r
    case Admin => "admin"
    case Member => "member"
  }

  /** The role a form value names, if it names one exactly. */
  function RoleOf(name: string): (r: Option<Role>)
    ensures r.Some? <==> name == "admin" || name == "member"
  {
    if name == "admin" then Some(Admin) else if name == "member" then Some(Member) else None
  }

  lemma RoleNameRoundTrip(r: Role)
    ensures RoleOf(RoleName(r)) == Some(r)
  {
  }

  /** A new user's role: anything but "admin" or "member" (a missing field included) becomes "member". */
  function NormalizeRole(name: string): (r: Role)
    ensures r == Admin <==> name == "admin"
  {
    RoleOf(name).GetOr(Member)
  }

  /** An edited user's role: anything but "admin" or "member" keeps the current role. */
  function EditedRole(name: string, current: Role): (r: Role)
    ensures RoleOf(name).Some? ==> r == RoleOf(name).value
    ensures RoleOf(name).None? ==> r == current
  {
    RoleOf(name).GetOr(current)
  }

  // ---------------------------------------------------------------- creating a user

  datatype CreateUserOutcome = FieldsRequired | PasswordRefused(error: PasswordError) | UsernameTaken | UserCreated(id: int)

  /** The form checks before the insert: all three fields, then the password policy. */
  function UserFormError(username: string, displayName: string, password: string): (r: Option<CreateUserOutcome>)
    ensures r.None? <==> !Blank(username) && !Blank(displayName) && !Blank(password)
                         && ValidatePassword(Strip(password)).None?
    ensures r.Some? ==> r.value == FieldsRequired || r.value.PasswordRefused?
  {
    StripEmptyIffBlank(username);
    StripEmptyIffBlank(displayName);
    StripEmptyIffBlank(password);
    if Strip(username) == "" || Strip(displayName) == "" || Strip(password) == "" then Some(FieldsRequired)
    else if ValidatePassword(Strip(password)).Some? then Some(PasswordRefused(ValidatePassword(Strip(password)).value))
    else None
  }

  /** The row a new account gets: active and not forced to change its password. */
  function NewUser(username: string, displayName: string, email: string, role: string): User {
    User(Strip(username), Strip(displayName), OptionalField(email), NormalizeRole(role), true, false)
  }

  predicate UsernameInUse(users: map<int, User>, username: string) {
    exists k :: k in users && users[k].username == username
  }

  /** user_create: a form error or a taken username inserts nothing. */
  method UserCreate(store: Store, username: string, displayName: string, email: string, role: string,
                    password: string) returns (outcome: CreateUserOutcome)
    requires store.Valid()
    modifies store`users, store`nextId
    ensures store.Valid()
    ensures UserFormError(username, displayName, password).Some? ==>
              outcome == UserFormError(username, displayName, password).value
    ensures UserFormError(username, displayName, password).None? && UsernameInUse(old(store.users), Strip(username)) ==>
              outcome == UsernameTaken
    ensures !outcome.UserCreated? ==> store.users == old(store.users) && store.nextId == old(store.nextId)
    ensures UserFormError(username, displayName, password).None? && !UsernameInUse(old(store.users), Strip(username)) ==>
              && outcome == UserCreated(old(store.nextId))
              && store.users == old(store.users)[old(store.nextId) := NewUser(username, displayName, email, role)]
              && store.nextId == old(store.nextId) + 1
  {
    var formError := UserFormError(username, displayName, password);
    if formError.Some? {
      return formError.value;
    }
    var id := store.CreateUser(NewUser(username, displayName, email, role));
    if id.None? {
      return UsernameTaken;
    }
    outcome := UserCreated(id.value);
  }

  /** A created account has the role the form named when it named one, and is a member otherwise. */
  lemma CreatedRole(username: string, displayName: string, email: string, role: string)
    ensures NewUser(username, displayName, email, role).role == (if role == "admin" then Admin else Member)
    ensures NewUser(username, displayName, email, role).isActive
  {
  }

  // ---------------------------------------------------------------- editing a user

  datatype EditUserOutcome = UserNotFound | DisplayNameRequired | CannotDeactivateSelf | CannotDemoteSelf | UserUpdated

  /** user_edit's guards, in order; `currentUserId` is the signed-in admin. */
  function EditVerdict(users: map<int, User>, currentUserId: int, userId: int, displayName: string,
                       role: string, isActiveField: string): (r: EditUserOutcome)
    ensures r == UserNotFound <==> userId !in users
    ensures r == CannotDeactivateSelf ==> userId == currentUserId && isActiveField != "1"
    ensures r == CannotDemoteSelf ==> userId == currentUserId && EditedRole(role, users[userId].role) != Admin
  {
    if userId !in users then UserNotFound
    else if Strip(displayName) == "" then DisplayNameRequired
    else if userId == currentUserId && isActiveField != "1" then CannotDeactivateSelf
    else if userId == currentUserId && EditedRole(role, users[userId].role) != Admin then CannotDemoteSelf
    else UserUpdated
  }

  /** The table after a successful edit: display name, email (a blank one left as it was), role and active flag. */
  function EditedUsers(users: map<int, User>, userId: int, displayName: string, email: string, role: string,
                       isActiveField: string): map<int, User>
    requires userId in users
  {
    UsersUpdated(users, userId, Some(Strip(displayName)), OptionalField(email),
                 Some(EditedRole(role, users[userId].role)), Some(isActiveField == "1"))
  }

  /** user_edit: only an edit that passes every guard writes the row. */
  method UserEdit(store: Store, currentUserId: int, userId: int, displayName: string, email: string, role: string,
                  isActiveField: string) returns (outcome: EditUserOutcome)
    requires store.Valid()
    modifies store`users
    ensures store.Valid()
    ensures outcome == EditVerdict(old(store.users), currentUserId, userId, displayName, role, isActiveField)
    ensures outcome != UserUpdated ==> store.users == old(store.users)
    ensures outcome == UserUpdated ==>
              userId in old(store.users)
              && store.users == EditedUsers(old(store.users), userId, displayName, email, role, isActiveField)
  {
    outcome := EditVerdict(store.users, currentUserId, userId, displayName, role, isActiveField);
    if outcome == UserUpdated {
      store.UpdateUser(userId, Some(Strip(displayName)), OptionalField(email),
                       Some(EditedRole(role, store.users[userId].role)), Some(isActiveField == "1"));
    }
  }

  /** An admin editing their own account can neither deactivate nor demote it: it stays an active admin. */
  lemma NoSelfLockout(users: map<int, User>, currentUserId: int, displayName: string, email: string, role: string,
                      isActiveField: string)
    requires EditVerdict(users, currentUserId, currentUserId, displayName, role, isActiveField) == UserUpdated
    ensures currentUserId in users
    ensures var edited := EditedUsers(users, currentUserId, displayName, email, role, isActiveField);
            edited[currentUserId].role == Admin && edited[currentUserId].isActive
  {
  }

  /** A blank email field leaves the stored email as it was: the form cannot clear it. */
  lemma BlankEmailKept(users: map<int, User>, userId: int, displayName: string, email: string, role: string,
                       isActiveField: string)
    requires userId in users && Blank(email)
    ensures EditedUsers(users, userId, displayName, email, role, isActiveField)[userId].email == users[userId].email
  {
    UpdateUserIsLocal(users, userId, Some(Strip(displayName)), OptionalField(email),
                      Some(EditedRole(role, users[userId].role)), Some(isActiveField == "1"), userId);
  }

  // ---------------------------------------------------------------- reporter entries

  /** `bid and bid != primary_id`: the backups the form keeps. */
  function KeepBackup(primary: string): string -> bool {
    b => b != "" && b != primary
  }

  /**
   * The entries for the backups, in order, or None once a kept value is not an
   * integer (`int()` raises and the request fails).
   */
  function BackupEntries(primary: string, backups: seq<string>): Option<seq<(int, bool)>>
    decreases |backups|
  {
    if backups == [] then Some([])
    else
      var init := BackupEntries(primary, backups[..|backups| - 1]);
      var b := backups[|backups| - 1];
      if init.None? then None
      else if !KeepBackup(primary)(b) then init
      else if ParseInt(b).None? then None
      else Some(init.value + [(ParseInt(b).value, false)])
  }

  function PrimaryEntry(primary: string): Option<seq<(int, bool)>> {
    if primary == "" then Some([])
    else if ParseInt(primary).None? then None
    else Some([(ParseInt(primary).value, true)])
  }

  /** `_save_reporters`' entry list: the primary first when given, then the kept backups. */
  function ReporterEntries(primary: string, backups: seq<string>): Option<seq<(int, bool)>> {
    var head := PrimaryEntry(primary);
    var tail := BackupEntries(primary, backups);
    if head.None? || tail.None? then None else Some(head.value + tail.value)
  }

  /** One more backup value extends the entries the way the loop body does. */
  lemma BackupEntriesStep(primary: string, backups: seq<string>, i: nat)
    requires i < |backups|
    ensures var done := BackupEntries(primary, backups[..i]);
            var b := backups[i];
            BackupEntries(primary, backups[..i + 1])
              == if done.None? then None
                 else if b == "" || b == primary then done
                 else if ParseInt(b).None? then None
                 else Some(done.value + [(ParseInt(b).value, false)])
  {
    assert backups[..i + 1][..i] == backups[..i];
  }

  /** Once a prefix of the backups fails to parse, the whole list does. */
  lemma {:induction false} BackupFailureSticks(primary: string, backups: seq<string>, i: nat)
    requires i <= |backups| && BackupEntries(primary, backups[..i]).None?
    ensures BackupEntries(primary, backups).None?
    decreases |backups| - i
  {
    if i < |backups| {
      assert backups[..i + 1][..i] == backups[..i];
      BackupFailureSticks(primary, backups, i + 1);
    } else {
      assert backups[..i] == backups;
    }
  }

  /**
   * The backup entries are the kept backups, blanks and copies of the primary
   * dropped, each parsed and marked not primary, in their original order.
   */
  lemma {:induction false} BackupEntriesSpec(primary: string, backups: seq<string>)
    ensures var kept := Where(backups, KeepBackup(primary));
            && (BackupEntries(primary, backups).Some? <==> forall i :: 0 <= i < |kept| ==> ParseInt(kept[i]).Some?)
            && (BackupEntries(primary, backups).Some? ==>
                  var es := BackupEntries(primary, backups).value;
                  |es| == |kept| && forall i :: 0 <= i < |kept| ==> es[i] == (ParseInt(kept[i]).value, false))
    decreases |backups|
  {
    if backups != [] {
      var init := backups[..|backups| - 1];
      var b := backups[|backups| - 1];
      var keep := KeepBackup(primary);
      BackupEntriesSpec(primary, init);
      assert backups == init + [b];
      WhereAppend(init, [b], keep);
      assert Where([b], keep) == (if keep(b) then [b] else []) + Where([], keep);
      var keptInit := Where(init, keep);
      var kept := Where(backups, keep);
      assert kept == keptInit + (if keep(b) then [b] else []);
      if BackupEntries(primary, init).None? {
        var j :| 0 <= j < |keptInit| && ParseInt(keptInit[j]).None?;
        assert kept[j] == keptInit[j];
      } else if keep(b) && ParseInt(b).None? {
        assert kept[|kept| - 1] == b;
      }
    }
  }

  /** The entry list, loop by loop as the form handler builds it. */
  method BuildReporterEntries(primary: string, backups: seq<string>) returns (entries: Option<seq<(int, bool)>>)
    ensures entries == ReporterEntries(primary, backups)
  {
    var list: seq<(int, bool)> := [];
    if primary != "" {
      var p := ParseInt(primary);
      if p.None? {
        return None;
      }
      list := [(p.value, true)];
    }
    ghost var head := list;
    for i := 0 to |backups|
      invariant BackupEntries(primary, backups[..i]).Some?
      invariant list == head + BackupEntries(primary, backups[..i]).value
    {
      var b := backups[i];
      ghost var done := BackupEntries(primary, backups[..i]).value;
      BackupEntriesStep(primary, backups, i);
      if b != "" && b != primary {
        var v := ParseInt(b);
        if v.None? {
          assert BackupEntries(primary, backups[..i + 1]).None?;
          BackupFailureSticks(primary, backups, i + 1);
          return None;
        }
        assert BackupEntries(primary, backups[..i + 1]) == Some(done + [(v.value, false)]);
        list := list + [(v.value, false)];
      } else {
        assert BackupEntries(primary, backups[..i + 1]) == Some(done);
      }
    }
    assert backups[..|backups|] == backups;
    entries := Some(list);
  }

  /** The primary, when given, is the first entry and the only one marked primary. */
  lemma ReporterEntriesPrimary(primary: string, backups: seq<string>)
    requires ReporterEntries(primary, backups).Some?
    ensures var es := ReporterEntries(primary, backups).value;
            && (primary != "" ==> es != [] && es[0] == (ParseInt(primary).value, true))
            && forall i :: 0 <= i < |es| ==> (es[i].1 <==> i == 0 && primary != "")
  {
    BackupEntriesSpec(primary, backups);
  }

  /** `_save_reporters`: build the entries, then replace the department's reporter rows with them. */
  method SaveReporters(store: Store, departmentId: int, primary: string, backups: seq<string>) returns (saved: bool)
    requires store.Valid()
    modifies store`reporters
    ensures store.Valid()
    ensures saved <==> ReporterEntries(primary, backups).Some?
    ensures saved ==> store.reporters == ReplacedReporters(old(store.reporters), departmentId,
                                                           ReporterEntries(primary, backups).value)
    ensures !saved ==> store.reporters == old(store.reporters)
  {
    var entries := BuildReporterEntries(primary, backups);
    if entries.None? {
      return false;
    }
    store.SetDepartmentReporters(departmentId, entries.value);
    saved := true;
  }

  /** After a save the department's rows are the entries: the primary's row first, every later one a backup. */
  lemma SavedRowsFollowEntries(reporters: seq<ReporterRow>, departmentId: int, primary: string, backups: seq<string>)
    requires ReporterEntries(primary, backups).Some?
    ensures var es := ReporterEntries(primary, backups).value;
            var rows := Where(ReplacedReporters(reporters, departmentId, es), (r: ReporterRow) => r.departmentId == departmentId);
            && |rows| == |es|
            && (forall i :: 0 <= i < |rows| ==> rows[i].userId == es[i].0 && (rows[i].isPrimary <==> i == 0 && primary != ""))
  {
    ReplaceAllReporters(reporters, departmentId, ReporterEntries(primary, backups).value);
    ReporterEntriesPrimary(primary, backups);
  }

  // ---------------------------------------------------------------- creating a department

  datatype DepartmentOutcome = NameRequired | NameTaken | DepartmentSaved(id: int) | BadReporterId(id: int)

  /**
   * department_create: a blank name or a taken one creates nothing. The
   * department is committed before its reporters are saved, so a reporter
   * value that is not an integer leaves it without reporters.
   */
  method DepartmentCreate(store: Store, name: string, color: string, isSpecialField: string, primary: string,
                          backups: seq<string>) returns (outcome: DepartmentOutcome)
    requires store.Valid()
    modifies store`departments, store`nextId, store`reporters
    ensures store.Valid()
    ensures Blank(name) ==> outcome == NameRequired
    ensures outcome == NameRequired || outcome == NameTaken ==>
              store.departments == old(store.departments) && store.nextId == old(store.nextId)
              && store.reporters == old(store.reporters)
    ensures !Blank(name) && (exists k :: k in old(store.departments) && old(store.departments)[k].name == Strip(name)) ==>
              outcome == NameTaken
    ensures outcome.DepartmentSaved? || outcome.BadReporterId? ==>
              && outcome.id == old(store.nextId) && store.nextId == old(store.nextId) + 1
              && store.departments == old(store.departments)[old(store.nextId) :=
                   Department(Strip(name), OptionalField(color), NextSortOrder(old(store.departments), old(store.nextId)),
                              isSpecialField == "1", false)]
    ensures outcome.DepartmentSaved? <==> !Blank(name) && ReporterEntries(primary, backups).Some?
                                          && forall k :: k in old(store.departments) ==> old(store.departments)[k].name != Strip(name)
    ensures outcome.DepartmentSaved? ==>
              store.reporters == ReplacedReporters(old(store.reporters), outcome.id, ReporterEntries(primary, backups).value)
    ensures outcome.BadReporterId? ==> store.reporters == old(store.reporters)
  {
    StripEmptyIffBlank(name);
    if Strip(name) == "" {
      return NameRequired;
    }
    var id := store.CreateDepartment(Strip(name), OptionalField(color), isSpecialField == "1");
    if id.None? {
      return NameTaken;
    }
    var saved := SaveReporters(store, id.value, primary, backups);
    outcome := if saved then DepartmentSaved(id.value) else BadReporterId(id.value);
  }

  // ---------------------------------------------------------------- reorder and templates

  /** departments_reorder: an empty or missing order changes nothing. */
  method DepartmentsReorder(store: Store, order: seq<int>)
    requires store.Valid()
    modifies store`departments
    ensures store.Valid()
    ensures order == [] ==> store.departments == old(store.departments)
    ensures order != [] ==> store.departments == Reordered(old(store.departments), order)
  {
    if order != [] {
      store.ReorderDepartments(order);
    }
  }

  function NonEmpty(s: string): bool {
    s != ""
  }

  /** `[int(d) for d in dept_ids if d]`, or None when a non-empty value is not an integer. */
  function DepartmentIds(fields: seq<string>): (r: Option<seq<int>>)
    ensures r.Some? ==> |r.value| == |Where(fields, NonEmpty)|
  {
    var kept := Where(fields, NonEmpty);
    if forall i :: 0 <= i < |kept| ==> ParseInt(kept[i]).Some? then
      Some(seq(|kept|, i requires 0 <= i < |kept| && ParseInt(kept[i]).Some? => ParseInt(kept[i]).value))
    else None
  }

  /** The form's checkbox values, one `str(id)` per selected department. */
  function ShownIds(ids: seq<int>): (r: seq<string>)
    ensures |r| == |ids|
  {
    seq(|ids|, i requires 0 <= i < |ids| => Show(ids[i]))
  }

  /** Selected department ids come back as they were sent, in order, with blank values before and after them. */
  lemma {:induction false} DepartmentIdsRoundTrip(ids: seq<int>, before: seq<string>, after: seq<string>)
    requires forall i :: 0 <= i < |before| ==> before[i] == ""
    requires forall i :: 0 <= i < |after| ==> after[i] == ""
    ensures DepartmentIds(before + ShownIds(ids) + after) == Some(ids)
  {
    var shown := ShownIds(ids);
    WhereAppend(before + shown, after, NonEmpty);
    WhereAppend(before, shown, NonEmpty);
    WhereNone(before, NonEmpty);
    WhereNone(after, NonEmpty);
    forall i | 0 <= i < |ids|
      ensures ParseInt(shown[i]) == Some(ids[i]) && shown[i] != ""
    {
      ParseShow(ids[i]);
    }
    WhereAll(shown, NonEmpty);
    assert Where(before + shown + after, NonEmpty) == shown;
    var r := DepartmentIds(before + shown + after);
    assert r.Some?;
    assert |r.value| == |ids|;
    assert forall i :: 0 <= i < |ids| ==> r.value[i] == ids[i];
    assert r.value == ids;
  }

  datatype TemplateOutcome = TemplateNotFound | TemplateNameRequired | BadDepartmentId | DuplicateTemplateName
                           | TemplateSaved(id: int)

  /** template_create: a blank name or a bad department value creates nothing; otherwise create_template. */
  method TemplateCreate(store: Store, name: string, description: string, departmentFields: seq<string>,
                        currentUserId: int, now: string) returns (outcome: TemplateOutcome)
    requires store.Valid()
    modifies store`templates, store`templateSections, store`nextId
    ensures store.Valid()
    ensures Blank(name) ==> outcome == TemplateNameRequired
    ensures !Blank(name) && DepartmentIds(departmentFields).None? ==> outcome == BadDepartmentId
    ensures !outcome.TemplateSaved? ==>
              store.templates == old(store.templates) && store.templateSections == old(store.templateSections)
              && store.nextId == old(store.nextId)
    ensures !Blank(name) && DepartmentIds(departmentFields).Some? ==>
              (outcome == DuplicateTemplateName <==> TemplateNameTaken(old(store.templates), Strip(name), -1))
    ensures outcome.TemplateSaved? ==>
              && !Blank(name) && DepartmentIds(departmentFields).Some?
              && outcome.id == old(store.nextId)
              && store.templates == old(store.templates)[old(store.nextId) :=
                   Template(Strip(name), Strip(description), Some(currentUserId), now)]
              && store.templateSections == Stamp(old(store.templateSections), old(store.nextId) + 1,
                                                 DepartmentListRows(old(store.nextId), DepartmentIds(departmentFields).value))
  {
    StripEmptyIffBlank(name);
    if Strip(name) == "" {
      return TemplateNameRequired;
    }
    var ids := DepartmentIds(departmentFields);
    if ids.None? {
      return BadDepartmentId;
    }
    var tid := store.CreateTemplate(Strip(name), Strip(description), Some(currentUserId), ids.value, now);
    outcome := if tid.Some? then TemplateSaved(tid.value) else DuplicateTemplateName;
  }

  /** template_edit: a missing template is 404; then the same form checks; then update_template. */
  method TemplateEdit(store: Store, templateId: int, name: string, description: string,
                      departmentFields: seq<string>) returns (outcome: TemplateOutcome)
    requires store.Valid()
    modifies store`templates, store`templateSections, store`nextId
    ensures store.Valid()
    ensures templateId !in old(store.templates) ==> outcome == TemplateNotFound
    ensures templateId in old(store.templates) && Blank(name) ==> outcome == TemplateNameRequired
    ensures templateId in old(store.templates) && !Blank(name) && DepartmentIds(departmentFields).None? ==>
              outcome == BadDepartmentId
    ensures !outcome.TemplateSaved? ==>
              store.templates == old(store.templates) && store.templateSections == old(store.templateSections)
              && store.nextId == old(store.nextId)
    ensures templateId in old(store.templates) && !Blank(name) && DepartmentIds(departmentFields).Some? ==>
              (outcome == DuplicateTemplateName <==> TemplateNameTaken(old(store.templates), Strip(name), templateId))
    ensures outcome.TemplateSaved? ==>
              && outcome.id == templateId && DepartmentIds(departmentFields).Some?
              && store.templates == Renamed(old(store.templates), templateId, Some(Strip(name)), Some(Strip(description)))
              && store.templateSections == Stamp(WithoutTemplate(old(store.templateSections), templateId), old(store.nextId),
                                                 DepartmentListRows(templateId, DepartmentIds(departmentFields).value))
  {
    if templateId !in store.templates {
      return TemplateNotFound;
    }
    StripEmptyIffBlank(name);
    if Strip(name) == "" {
      return TemplateNameRequired;
    }
    var ids := DepartmentIds(departmentFields);
    if ids.None? {
      return BadDepartmentId;
    }
    var ok := store.UpdateTemplate(templateId, Some(Strip(name)), Some(Strip(description)), Some(ids.value));
    outcome := if ok then TemplateSaved(templateId) else DuplicateTemplateName;
  }
}
