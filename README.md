# standup3000 business rules in Dafny

standup3000 is a web tool for weekly stand-up meetings. A meeting has one
section per department. Each section holds a reporter's notes and action items
(todos). Meetings can be created three ways:

- as a blank snapshot of the departments;
- as a copy of an earlier meeting;
- from a template.

A meeting can be locked, exported to Markdown and shown in a presenter view.

This project models the rules of that tool and proves properties of them.
Each SQLite table becomes an in-memory map from row id to record. Each
request handler's guard chain becomes a method or function that returns the
HTTP outcome.

Modules, one per file:

- `Wrappers`: `Option`.
- `Text` (text.dfy): the Python string built-ins the handlers rely on:
  - `str.strip()`;
  - the `field or fallback` idiom and `field.strip() or None`;
  - ASCII `str.lower()`;
  - `int()` of a form value, with its round trip against `str()`.
- `Query` (query.dfy): SQL reading in the model's terms:
  - string order;
  - composite `ORDER BY` keys;
  - a stable sort;
  - `WHERE` as a filter;
  - `fetchone` as the first match;
  - `COUNT`;
  - grouping rows into a dict in a loop.
- `Tables` (tables.dfy): the rows of `db.py` and its read-only queries:
  - `can_edit_section`;
  - the meeting, section, department and template lookups;
  - the dashboard and my-todos filters and sort keys;
  - template rows;
  - fill status;
  - heatmap cells.
- `Database` (database.dfy): the store as a class `Store` with one field per
  table and one shared id counter. The `db.py` mutators are its methods, and
  they keep the store's invariant `Valid()`:
  - ids were issued;
  - UNIQUE columns are unique;
  - sections and todos point at existing rows;
  - `completed_at` is set exactly for done todos.
- `Export` (export.dfy): `get_meeting_as_markdown`, which builds its line list
  loop by loop against a specification function.
- `Auth` (auth.py):
  - password validation;
  - the per-IP sliding-window login rate limiter, as a class over the attempts map;
  - the session and its CSRF token;
  - the CSRF decision;
  - the `get_current_user`/`login_required`/`admin_required` gates;
  - the next-URL check;
  - the login guard order;
  - the change-password and first-run setup form checks.
- `Admin` (admin.py):
  - role normalisation;
  - the user create and edit handlers with their self-guards;
  - `_save_reporters`' entry building;
  - department create and reorder;
  - the template form's department-id list;
  - template create and edit.
- `App` (app.py):
  - `next_wednesday`;
  - the `meeting_new` fallback chain;
  - presenter ordering;
  - dashboard filter parsing and grouping;
  - the `todo_add`, attendance, `section_edit` and `section_save` guards.
- `Wav` (generate_sounds.py): `write_wav` as a function from integer samples and a sample rate to the file's bytes.

Conventions:

- Time values are parameters:
  - `now` and `today` are ISO strings, which compare lexicographically;
  - the rate limiter's clock is a `real` of seconds;
  - `next_wednesday`'s date is a day number, with day 1 a Monday.
- A table scan visits rows in ascending id order. A query without `ORDER BY`
  returns rows in that order, and an `ORDER BY` breaks ties in it.
- A form field that is absent is the empty string, as `request.form.get(name, "")` gives.

## Model

| member | source | states |
|---|---|---|
| Text.OptionalField | admin.py:44 | `field.strip() or None` is None exactly for a blank field, else the stripped text |
| Text.StripEmptyIffBlank | admin.py:42-48 | stripping leaves nothing exactly when the field is all whitespace, so "required" checks on stripped fields reject blank input |
| Text.StripIdempotent | admin.py:42-46 | stripping an already stripped field changes nothing |
| Text.ParseShow | app.py:192-196 | an integer rendered with `str()` and read back with `int()` is the same integer |
| Query.SortBySorted | db.py:490-496 | the `ORDER BY` sort yields rows ordered by their key |
| Query.SortBy | db.py:490-496 | the sorted rows are a permutation of the input |
| Query.WhereMembers | db.py:660-706 | a `WHERE` filter keeps exactly the rows satisfying it |
| Query.GroupBy | db.py:650-656 | the dict built in the loop has one key per section id present, each holding that section's rows in query order |
| Query.First | db.py:467-471 | `fetchone()` finds a matching row exactly when one exists |
| Query.FirstIsEarliest | db.py:467-471 | the row `fetchone()` returns is the earliest match in scan order |
| Tables.StampContents | db.py:446-450 | inserting rows one by one gives the i-th row id first+i and leaves every other row alone |
| Tables.FindMeetingByDateFound | db.py:467-471 | `get_meeting_by_date` returns a meeting with that date, and None only when no meeting has it |
| Tables.CanEditSection | db.py:537-558 | a locked meeting denies everyone, admins included; otherwise exactly admins, the section's snapshot reporter and any primary or backup reporter of its department may edit |
| Tables.MoreReportersNeverRevoke | db.py:549-557 | adding department_reporter rows never takes an edit permission away |
| Tables.PermissionIsLocal | db.py:543-557 | other departments' reporter rows and other meetings' lock state do not affect the decision |
| Tables.SectionsOfMembers | db.py:490-496 | `get_sections` returns exactly the meeting's sections |
| Tables.SectionsOfSorted | db.py:490-496 | `get_sections` is ordered by sort_order |
| Tables.ActiveDepartmentsMembers | db.py:262-271 | the department list holds exactly the non-archived departments |
| Tables.PrimaryReporter | db.py:428-436 | the snapshot reporter is a user named by a primary row of the department, or there is no primary row with an existing user |
| Tables.MaxSortOrder | db.py:284 | the next department's base is the largest sort_order, or -1 for none |
| Tables.NormalizePriority | db.py:598-599 | a priority outside {low, normal, high} becomes normal, and a valid one is kept |
| Tables.PriorityRoundTrip | db.py:598-599 | every stored priority normalises to itself |
| Tables.JoinRows | db.py:691-704 | every joined dashboard row is a todo of the table with its id |
| Tables.JoinRowsExact | db.py:691-704 | the join yields a row for a scanned todo exactly when its section and that section's meeting exist, carrying the section's name, reporter and sort_order, the meeting's id and date, and the assignee's display name when the assignee exists |
| Tables.DashboardTodosExact | db.py:660-706 | a todo reaches the dashboard exactly when its section and meeting exist and it passes every filter, with its joined columns |
| Tables.AllOpenTodosMembers | db.py:660-706 | the dashboard returns exactly the joined rows passing every filter at once (AND), as a permutation of them |
| Tables.AllOpenTodosOrder | db.py:702 | dashboard rows come newest meeting date first |
| Tables.OverdueOnlyIsOpen | db.py:686-687 | with `overdue_only`, every row is open and overdue, even when `include_done` is set |
| Tables.MyTodosTriage | db.py:709-729 | a user's list holds exactly their todos (open ones unless done ones are asked for); overdue todos come first, and undated todos last |
| Tables.DepartmentListRows | db.py:859-864 | the template's i-th department gets sort_order i and empty default content |
| Tables.SavedTemplateRowsSpec | db.py:889-896 | save-from-meeting keeps exactly the sections with a department, copying content as default_content |
| Tables.TemplatePlanSound | db.py:995-1015 | every section made from a template is for a live department, with the template row's sort_order and default content |
| Tables.TemplatePlanComplete | db.py:995-1015 | every template row whose department exists and is not archived yields a section |
| Tables.FillStatus | db.py:561-569 | the filled count never exceeds the total |
| Tables.HeatCell | db.py:1323-1333 | a cell is missing exactly when the meeting has no section for the department; otherwise it is empty or filled as that section's content is empty or not |
| Tables.Heatmap | db.py:1308-1337 | one row per active department, one cell per recent meeting, and cell (i, j) is the cell of the i-th active department in the j-th recent meeting |
| Tables.RecentMeetings | db.py:1311-1314 | at most `limit` meetings are shown |
| Tables.RecentMeetingsLatest | db.py:1311-1314 | min(limit, n) of the n meetings are shown, oldest first, and no meeting left out is dated later than one shown |
| Database.MeetingPlan | db.py:402-450 | every section create_meeting plans belongs to the new meeting |
| Database.CopyModeIsVerbatim | db.py:402-418 | copy mode gives the new meeting exactly the source meeting's sections, content included |
| Database.BlankModeSnapshotsDepartments | db.py:420-443 | blank mode creates one empty section per active department, snapshotting its name, sort_order and is_special, and nothing else |
| Database.FallbackUsesDefaults | db.py:444-450 | with no active department, the built-in sections are created, the i-th at sort_order i |
| Database.SelfCopyIsEmpty | db.py:399-418 | copying from the new meeting's own date finds the new, still empty meeting, so no section is created |
| Database.Toggled | db.py:611-625 | a toggle flips done, sets completed_at on completion and clears it on reopening, and changes nothing else |
| Database.ToggleTwice | db.py:611-625 | toggling twice restores an open todo exactly, and a done one up to its new completion time |
| Database.CarryTarget | db.py:749-763 | the target section is in the target meeting, matched by department first and by name otherwise, and none exists exactly when neither matches |
| Database.UpdateUserIsLocal | db.py:204-226 | update_user changes only the named user, never a username, and only the fields given |
| Database.ReorderedSpec | db.py:324-330 | a reorder keeps the same departments; a listed one takes its last position as sort_order, and others keep theirs |
| Database.ReorderByPosition | db.py:324-330 | with no repeats, the department at position i gets sort_order i |
| Database.ReplaceAllReporters | db.py:348-360 | after a replace, the department's reporter rows are exactly the new entries in order |
| Database.ReplaceKeepsOthers | db.py:348-360 | a replace leaves other departments' reporter rows and their order untouched |
| Database.ParseAttendance | db.py:1033-1034 | a status outside {absent, remote} is stored as present |
| Database.NextSortOrder | db.py:284-288 | a new department sorts after every existing one, and first when there is none |
| Database.Renamed | db.py:941-959 | a template update changes no other template and removes none |
| Database.WithoutTemplate | db.py:960-961 | deleting a template's rows removes exactly those rows |
| Database.Store.constructor | db.py:39-79 | a fresh store is empty and valid |
| Database.Store.CreateUser | db.py:139-156 | a taken username creates nothing; otherwise the user is added under a fresh id |
| Database.Store.UpdateUser | db.py:204-226 | the user table becomes its update |
| Database.Store.CreateMeeting | db.py:395-457 | a taken date returns None and changes nothing; otherwise one meeting and its planned sections are added under consecutive fresh ids |
| Database.Store.CreateMeetingFromTemplate | db.py:979-1023 | as create_meeting, with the template's sections and the template id recorded |
| Database.Store.LockMeeting | db.py:798-815 | false exactly for a missing meeting; an already locked meeting keeps its locked_by/locked_at; otherwise it becomes locked by the user now |
| Database.Store.UnlockMeeting | db.py:818-831 | false exactly for a missing meeting; afterwards the meeting is open with no lock owner or time |
| Database.Store.UpdateSection | db.py:506-513 | the section gets the new content and updated_at; a missing one changes nothing |
| Database.Store.AddTodo | db.py:595-608 | one new open todo with the priority normalised and every other field as given |
| Database.Store.ToggleTodo | db.py:611-625 | the todo is replaced by its toggle; a missing id changes nothing |
| Database.Store.DeleteTodo | db.py:628-637 | exactly that todo is removed |
| Database.Store.CarryForward | db.py:732-781 | None, with nothing changed, when the todo, its section or a target is missing; otherwise the original is closed and one open copy is added to the target section |
| Database.Store.TodosByMeeting | db.py:640-657 | the meeting's todos grouped by section, each group in query order |
| Database.Store.ReorderDepartments | db.py:324-330 | the department table becomes its reorder |
| Database.Store.SetDepartmentReporters | db.py:348-360 | the reporter rows become the replace-all result |
| Database.Store.CreateDepartment | db.py:281-296 | a taken name creates nothing; otherwise the department is added after all others |
| Database.Store.CreateTemplate | db.py:846-872 | a taken name changes nothing, rows included; otherwise the template and one row per department are added |
| Database.Store.SaveTemplateFromMeeting | db.py:875-904 | as create_template, with one row per section of the meeting that has a department |
| Database.Store.UpdateTemplate | db.py:941-969 | renaming onto another template's name fails and changes nothing; otherwise the given fields are set and a given department list replaces the template's rows |
| Database.Store.SetAttendance | db.py:1028-1043 | upserts the (meeting, user) row with the parsed status |
| Database.Store.RemoveAttendance | db.py:1046-1054 | removes exactly the (meeting, user) row |
| Export.JoinStartsWithFirst | db.py:1533 | the joined export starts with its first line |
| Export.JoinLength | db.py:1533 | the joined text is as long as the lines plus one separator between each two |
| Export.JoinPlacement | db.py:1533 | read back through slices, each line sits at its offset and exactly one separator sits between each line and the next |
| Export.AttendancePartition | db.py:1491-1500 | every attendee is listed once, under present, remote or absent |
| Export.TodoLineShape | db.py:1522-1529 | an action item's box is checked exactly when it is done, and its text follows |
| Export.EveryTodoListed | db.py:1503-1530 | every todo of every exported section has its line in the export |
| Export.TodoInSection | db.py:1515-1530 | every todo of a section has its line in the section's block |
| Export.ExportOpensWithHeading | db.py:1467-1480 | a missing meeting has no export, and an existing one opens with its dated heading |
| Export.ActionItemsBlock | db.py:1520-1530 | the action-item lines built in the loop are the action-items block |
| Export.MeetingAsMarkdown | db.py:1467-1533 | the export built section by section is the Markdown specification |
| Auth.ValidatePassword | auth.py:22-28 | the length error comes exactly for fewer than 8 characters; no error exactly for 8 or more whose lowercase form is not a common password |
| Auth.ValidationIgnoresCase | auth.py:22-28 | the verdict does not depend on letter case |
| Auth.EveryCommonPasswordRefused | auth.py:14-28 | every listed common password is refused as too common |
| Auth.RecentNotStale | auth.py:31-41 | an IP with a recent attempt is never swept |
| Auth.CheckPrunes | auth.py:31-35 | after the check, the IP's list holds exactly its attempts inside the window, in order |
| Auth.CheckSweeps | auth.py:36-40 | above 1000 keys, every other key with an empty or stale list is deleted and every other key keeps its list |
| Auth.CheckKeepsSmallLog | auth.py:36-40 | at 1000 keys or fewer, no other key changes |
| Auth.RecordedAttemptCounts | auth.py:44-45 | recording an attempt appends it to that IP's recent attempts |
| Auth.LimitSticks | auth.py:41-45 | a limited IP stays limited after another attempt is recorded |
| Auth.RateLimiter.constructor | auth.py:11 | the attempts map starts empty |
| Auth.RateLimiter.IsRateLimited | auth.py:31-41 | the map becomes the pruned and swept one; the result is whether 5 or more recent attempts remain |
| Auth.RateLimiter.Sweep | auth.py:36-40 | exactly the stale keys are deleted |
| Auth.RateLimiter.RecordAttempt | auth.py:44-45 | the time is appended to that IP's list and nothing else changes |
| Auth.Session.GenerateCsrfToken | auth.py:202-206 | an existing token is returned unchanged; otherwise the new token is stored and returned |
| Auth.Session.Clear | auth.py:161-163 | logout clears the user, the fresh-login flag and the token |
| Auth.IssuedToken | auth.py:202-206 | the session holds the returned token, and an existing one is kept |
| Auth.IssuedTokenIdempotent | auth.py:202-206 | generating a token a second time changes nothing |
| Auth.NoSessionTokenRefuses | auth.py:209-218 | without a session token every request that is not exempt is refused |
| Auth.FormTokenTakesPrecedence | auth.py:216-218 | a non-empty form token is checked, not the header, and passes exactly when it equals the session token |
| Auth.IssuedTokenPasses | auth.py:202-218 | the issued token, sent in the form or the header, passes the check |
| Auth.CurrentUser | auth.py:48-56 | a user is signed in exactly when the session id is non-zero and names an active user |
| Auth.LoginRequired | auth.py:59-66 | proceed exactly with a current user; otherwise redirect to the login page with the path as next |
| Auth.AdminRequired | auth.py:69-78 | redirect without a user, 403 for a non-admin, proceed for an admin |
| Auth.DeactivatedIsSignedOut | auth.py:48-78 | a deactivated user is treated as signed out by both gates |
| Auth.AdminGateIsStricter | auth.py:59-78 | passing the admin gate implies passing the login gate |
| Auth.SafeNextAsWrittenDecision | auth.py:152-156 | the check as written accepts exactly the URLs that start with "/" and have an empty netloc |
| Auth.ProtocolRelativeRefused | auth.py:152-156 | "//host" is refused |
| Auth.OpenRedirectAsWritten | auth.py:152-156 | "///host" and "/\host" pass the check as written, yet browsers take them off-site |
| Auth.SafeNextIsSiteLocal | auth.py:152-156 | the corrected check accepts exactly what the written one accepts and stays on this site |
| Auth.LoginRedirect | auth.py:150-157 | the redirect goes to the chosen next URL or the index page |
| Auth.LoginRedirectPassesCheck | auth.py:150-157 | the next URL is followed exactly when the check as written accepts it, and the redirect always passes that check |
| Auth.LoginRedirectLeavesSite | auth.py:150-157 | a form `next` of "///host" is followed, and a browser takes it off-site |
| Auth.LoginRedirectCorrected | auth.py:150-157 | with the corrected check, the redirect goes to the chosen next URL or the index page |
| Auth.LoginRedirectStaysOnSite | auth.py:150-157 | with the corrected check, a safe next URL is followed and the redirect never leaves the site |
| Auth.HandleLogin | auth.py:128-157 | a limited IP gets 429 before authentication and no attempt is recorded; every other try records one attempt; a success signs the user in and goes to the password change or to the next URL as the check as written lets it through |
| Auth.ChangePasswordDecision | auth.py:167-197 | the change happens exactly when the current password is not required or matches, the new one is valid and it matches the confirmation |
| Auth.ForcedChangeSkipsCurrent | auth.py:175-180 | a forced change does not depend on the current password |
| Auth.SetupFormError | auth.py:98-116 | setup passes its checks exactly when all fields are given, the password is valid and it matches the confirmation |
| Auth.BlankSetupFieldMissing | auth.py:104-106 | a blank username or display name is reported as missing |
| Admin.RoleOf | admin.py:58-59 | only "admin" and "member" are role names |
| Admin.RoleNameRoundTrip | admin.py:58-59 | every role's name reads back as that role |
| Admin.NormalizeRole | admin.py:58-59 | the new user is an admin exactly when the role field is "admin" |
| Admin.EditedRole | admin.py:88-89 | an edit with an unknown role keeps the user's current role |
| Admin.UserFormError | admin.py:48-56 | no error exactly when username, display name and password are given and the password is valid |
| Admin.CreatedRole | admin.py:58-61 | a created user is active, with role admin or member |
| Admin.UserCreate | admin.py:40-67 | a form error or a taken username creates nothing; otherwise one user is added |
| Admin.EditVerdict | admin.py:73-100 | not found exactly for a missing user; self-deactivation and self-demotion are refused |
| Admin.UserEdit | admin.py:73-105 | the outcome is the verdict; only an accepted edit changes the user table |
| Admin.NoSelfLockout | admin.py:91-100 | an accepted self-edit leaves the editor an active admin |
| Admin.BlankEmailKept | admin.py:80-103 | a blank email field leaves the stored email as it was |
| Admin.BackupEntriesSpec | admin.py:209-211 | the backup entries are the non-blank backups that differ from the primary, in order, and fail exactly when one is not an integer |
| Admin.BuildReporterEntries | admin.py:201-213 | the list built in the loop is the entry specification |
| Admin.ReporterEntriesPrimary | admin.py:206-211 | the primary, when given, is the first entry and the only one marked primary |
| Admin.SaveReporters | admin.py:201-213 | a bad id saves nothing; otherwise the department's rows are replaced by the entries |
| Admin.SavedRowsFollowEntries | admin.py:213 | after a save the department's rows are exactly the entries, primary first |
| Admin.DepartmentCreate | admin.py:133-154 | a blank or taken name creates nothing; otherwise the department is added and its reporters saved |
| Admin.DepartmentsReorder | admin.py:194-198 | an empty order list changes nothing; otherwise departments are reordered by position |
| Admin.DepartmentIds | admin.py:258 | one id per non-blank field |
| Admin.DepartmentIdsRoundTrip | admin.py:258 | ids rendered into the form, with blank fields around them, read back as the same ids in order |
| Admin.TemplateCreate | admin.py:245-269 | a blank name or a bad id creates nothing; a taken name creates nothing; otherwise the template and its department rows are added |
| Admin.TemplateEdit | admin.py:277-303 | a missing template is 404; a blank name, bad id or taken name changes nothing; otherwise fields and rows are replaced |
| App.NextWednesday | app.py:11-17 | the first Wednesday on or after today, at most six days ahead |
| App.WednesdaySuggestsToday | app.py:11-17 | on a Wednesday, today is suggested |
| App.TemplateChoice | app.py:136-145 | a blank template field selects no template; otherwise its integer, when it is one |
| App.TemplateChoiceShow | app.py:141-145 | a rendered template id reads back as itself |
| App.MeetingNew | app.py:133-154 | a blank date creates nothing; a taken date redirects to the meeting that has it; otherwise the template is tried and copy_from is the fallback |
| App.PresenterOrderIsPermutation | app.py:168-170 | presenter order is a permutation of the sections |
| App.PresenterOrderSpecialLast | app.py:168-170 | every special section comes after every regular one |
| App.PresenterOrderKeepsOrder | app.py:168-170 | regular and special sections each keep their original order |
| App.ParseAssignee | app.py:189-196 | "unassigned" gives the sentinel, an integer string that integer, and anything else no filter |
| App.ParseAssigneeShow | app.py:192-196 | a rendered user id reads back as that id |
| App.DashboardFilterOf | app.py:184-203 | the filter fields follow the query string exactly |
| App.GroupTodos | app.py:204-215 | the grouped dict built in the loop has one group per (date, section), holding that pair's rows in order; its dates, and under each date its section names, are keyed in order of first occurrence |
| App.DateKeysMembers | app.py:204-208 | the date keys are exactly the dates of the rows, each once |
| App.SectionKeysMembers | app.py:204-215 | the section keys under a date are exactly the section names on that date, each once |
| App.DateKeysNewestFirst | app.py:204-208 | rows ordered newest date first give date keys in strictly descending order |
| App.GroupingPlacesEveryRowOnce | app.py:204-215 | every row is in its own group as often as it is in the input, and in no other group |
| App.TodosDashboard | app.py:182-215 | the groups hold exactly the filtered dashboard rows, keyed in first-occurrence order, with the dates newest first |
| App.AssignedTo | app.py:254-259 | a blank assignee is None; otherwise it is the integer, or None when it is not one |
| App.AssignedToShow | app.py:254-259 | a rendered user id reads back as itself |
| App.TodoAdd | app.py:245-264 | 404 for a missing section, 403 for a locked meeting, no insert for blank text; otherwise one todo with the parsed fields |
| App.AttendanceUpdate | app.py:427-445 | 404, then 403 for non-admins, then 400 without a body or user id; "none" removes the row, any other status upserts it |
| App.SectionEdit | app.py:457-464 | 404 for a missing section, 403 exactly when editing is not allowed |
| App.LockedSectionRefused | app.py:457-464 | a section of a locked meeting is refused even to an admin |
| App.SectionSave | app.py:476-486 | the verdict is the edit verdict, and content is written only when editing is allowed |
| Wav.U32RoundTrip | generate_sounds.py:25 | the u32 little-endian field reads back as its value |
| Wav.I16RoundTrip | generate_sounds.py:20 | the two's-complement i16 field reads back as its value |
| Wav.Clamp | generate_sounds.py:20 | samples are clamped to [-32768, 32767], and clamping is the identity in range |
| Wav.DataLayout | generate_sounds.py:20 | the data is 2n bytes, and sample i is at 2i |
| Wav.WriteWavFails | generate_sounds.py:16-31 | writing fails exactly when a header field does not fit its width |
| Wav.WavLength | generate_sounds.py:16-31 | 44 header bytes, then two bytes per sample |
| Wav.WavTags | generate_sounds.py:24-29 | "RIFF", "WAVE", "fmt " and "data" sit at offsets 0, 8, 12 and 36 |
| Wav.WavSizes | generate_sounds.py:25-30 | the RIFF size is 36 + 2n and the data size 2n |
| Wav.FmtFields | generate_sounds.py:28 | the fmt body decodes to 16, 1, 1, the rate, twice the rate, 2 and 16 |
| Wav.WavFormat | generate_sounds.py:27-28 | the same fields sit at offsets 16 to 34 of the file |
| Wav.WavSamples | generate_sounds.py:20-30 | each clamped sample is the i16 at 44 + 2i |

## Left out

- SQLite itself is not modelled: connections, pragmas, migrations (`run_migrations` reads .sql files that are not part of this model), transactions and the settings table. Each operation is one atomic step on the maps. SQLite keeps one autoincrement counter per table, but one shared counter gives the same uniqueness.
- Foreign keys and cascades beyond what the code shows are not assumed. A delete removes only its own row.
- Database.Store.CreateUser: a new user is active and not forced to change password (the schema defaults are not part of this model). The email column is not treated as unique.
- Password hashing, `authenticate_user`'s hash check, `secrets.token_hex` and the clocks (`time.time`, `date.today`, `datetime.utcnow`) are left out. They are parameters: the authenticated user, the new token, `now` and `today`.
- The FTS5 search index and `search`, and the analytics other than the heatmap (KPIs, fill rate, velocity, by-assignee, stale, activity), use floating point, `julianday` or database-native ranking.
- Flask is left out: rendering, flash messages, HTMX partials, the Markdown filter (mistune/nh3) and the security headers. `session.permanent` is not modelled.
- App.NextWednesday works on day numbers. `isoformat()` rendering of dates is left out.
- Text.Lower folds ASCII letters only, not Python's full Unicode `str.lower()`.
- Text.ParseInt accepts an optional sign and ASCII digits. Python's `int()` also takes `_` separators and non-ASCII digits.
- Auth.UrlNetloc follows `urlsplit` for URLs that start with "/", which are the only ones the check can accept. `urlsplit`'s ValueError on a malformed IPv6 netloc is left out.
- The first-run setup path is modelled up to its form checks (Auth.SetupFormError). The account creation and sign-in that follow are the same steps as Database.Store.CreateUser and Auth.HandleLogin, and are not modelled again.
- `login()`'s dispatch between setup and login is not modelled.
- These handlers are thin wrappers over modelled operations and are not modelled themselves:
  - `logout` (only its `session.clear()` is, as Auth.Session.Clear);
  - `user_reset_password`, `settings`, `department_edit`, `template_delete` and `template_save_from_meeting`;
  - `index`, `meeting_view`, `meetings_list`, `my_todos` and `todo_list`;
  - `todo_toggle`, `todo_delete` and `todo_carry_forward`;
  - `search_page`, the export route, the analytics routes and the lock/unlock routes.
- App.AttendanceUpdate: the JSON body's `user_id` is an integer or absent, and `status` is a string or absent. Other JSON types are not modelled.
- Admin.DepartmentsReorder takes the JSON order as integers.
- Wav: `write_wav` takes integer samples. The float-to-int `int()` truncation, the file write and the synthesis functions (`sine`, `fade`, `mix`, `generate_*`) are left out.
- Admin.UserEdit: the form cannot clear a stored email. A blank field keeps it (Admin.BlankEmailKept), although update_user would store an empty email as NULL.
- Export.MeetingAsMarkdown: the export's attendance query is modelled over the attendance map joined with users, ordered by display name.

## Findings

| source | as written | input that shows it | evidently intended | confidence | as-written member | corrected member |
|---|---|---|---|---|---|---|
| auth.py:152-156 | the next URL is accepted when it starts with "/" and `urlparse` finds no scheme and no netloc | `next=///evil.example` or `next=/\evil.example`: `urlparse` sees an empty netloc, but browsers resolve both to the host evil.example | only same-site paths are followed | medium, not executed; whether the browser receives the target unchanged depends on how the web framework writes the Location header, which is outside this code | Auth.LoginRedirectLeavesSite | Auth.LoginRedirectStaysOnSite |

Auth.HandleLogin models the login handler as written, so it follows these targets. Auth.LoginRedirectCorrected is the redirect with the corrected check (Auth.SafeNext, related to the written one by Auth.SafeNextIsSiteLocal).
