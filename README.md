# Task-management backend: a Dafny model

This project models the request handlers of a small Express/Mongoose
backend for team task management, and proves properties of them. The
handlers cover:

- the **task lifecycle**: creation, editing, deletion, an assignee's accept
  or decline, progress reports and their review by an admin, and the
  admin's assign, validate and mark-done transitions;
- the **project registry**: creation with welcome tasks, the two kinds of
  membership and capacity update with their unassign sweep, and the
  cascading delete;
- the **notification mailbox**: list, mark as read, delete one, delete all;
- **identity**: registration, login, the admin's user delete and password
  reset, profile update, the bearer-token middleware and the role guard;
- the **schemas** of the four collections: enums, defaults and the
  validation a save performs.

The database is one object, `Database.Store`. It holds four maps (users,
projects, tasks, notifications) and an id counter that stands for
ObjectId generation. Its invariant `Valid()` says three things:

- every stored document passed its schema;
- every id came from the counter;
- no two users share an email (the unique index).

Each handler is a method over the store, shaped like the JavaScript it
models:

1. load a document as a value;
2. check who is asking and what was sent;
3. change the local copy field by field;
4. write the copy back.

A handler is proved against specification functions: a refusal function
that gives the error status, and a function that gives the saved
document. Lemmas then state what the source promises about those
functions.

Some behaviour depends on outside calls that can fail. A parameter says
how such a call goes:

- `delivered` is how many notifications of a loop are created before the
  first failure;
- `notified` says whether a single notification is created;
- `inserted` is how many welcome tasks an `insertMany` writes;
- `committed` says whether the deletion transaction commits.

bcrypt, `jwt.sign` and `jwt.verify` are function parameters: `hash`,
`matches`, `sign` and `verify`. The uploads directory is a `Files.Disk`: a
set of paths, plus the paths whose removal fails.

Other modelling choices:

- Email lookups use the normalised (lowercased, trimmed) address, because
  Mongoose casts query values through the schema's setters. Lowercasing
  covers the ASCII letters only (see "Left out").
- Save-time validation is modelled as an outcome. An invalid document
  answers 500 and nothing is written. This happens, for example, with a
  blank title, an unknown status, or a name that trims to nothing.

Behaviour of the code worth noting:

- createTask does not deduplicate collaborators. It stores only the first
  one and notifies every entry.
- The capacity invariant `|members| <= maxMembers` is not kept at all
  times:
  - createProject without a capacity does not check the member count
    against the default of 10 (`ProjectController.DefaultCapacityNotChecked`);
  - updateProject can lower the capacity below the member count
    (`ProjectController.CapacityNotRechecked`).
- The unassign sweep clears a task's assignees only when none of them is
  still a member. A project task with no assignees matches too.
- Two notification failures are not swallowed; each answers 500 after the
  save:
  - the accept/decline notification;
  - the notifications of adminCreateTaskWithAttachments.

## Model

| member | source | states |
|---|---|---|
| TaskModel.ParseStatus | models/Task.js:8-12 | the status enum accepts exactly the four names: a result names the string, no result means no status has that name |
| TaskModel.ParseStatusName | models/Task.js:8-12 | parsing the name of a status gives that status back |
| TaskModel.ParseParticipation | models/Task.js:22-26 | the participation enum accepts exactly pending, accepted and declined |
| TaskModel.ParseParticipationName | models/Task.js:22-26 | parsing a participation name gives it back |
| TaskModel.ParseReportStatus | models/Task.js:42 | the report-status enum accepts exactly submitted, approved and rejected |
| TaskModel.ParseReportStatusName | models/Task.js:42 | parsing a report-status name gives it back |
| TaskModel.ParsePriority | models/Task.js:67-71 | the priority enum accepts exactly low, medium and high |
| TaskModel.ParsePriorityName | models/Task.js:67-71 | parsing a priority name gives it back |
| TaskModel.ParseVisibility | models/Task.js:72 | the visibility enum accepts exactly personal and shared |
| TaskModel.ParseVisibilityName | models/Task.js:72 | parsing a visibility name gives it back |
| TaskModel.Blank | models/Task.js:3-75 | a task with only its required fields passes validation exactly when its title is non-empty, and keeps the given title, owner and creation time |
| TaskModel.BlankDefaults | models/Task.js:3-75 | the schema defaults: status todo, participation pending, priority medium, visibility personal, progress 0, not completed, empty description, no assignees, reports or logs |
| TaskModel.Conforms | models/Task.js:5-66 | the save validators: a non-empty title, progress within [0, 100] and log entries of the log enum; so a stored progress is unchanged by the handlers' clamp, and every log entry is named accepted or declined |
| TaskModel.Clamp | controllers/taskController.js:190 | the clamp lands in [0, 100], keeps an in-range value, and maps values below to 0 and above to 100 |
| TaskModel.ClampIdempotent | controllers/taskController.js:190 | clamping twice is clamping once |
| TaskModel.FromUpload | controllers/taskController.js:319-325 | an attachment copies the upload's name, original name, size and type, and its URL is the file's `/uploads/` URL |
| TaskModel.FromUploads | controllers/taskController.js:319-325 | one attachment per upload, in order |
| TaskModel.FindReport | controllers/taskController.js:517 | the lookup gives the first report with that id, or the list's length when none has it |
| TaskModel.FindReportByIds | controllers/taskController.js:517 | the lookup depends on the reports' ids only |
| ProjectModel.Blank | models/Project.js:3-14 | a project passes validation exactly when its name is non-empty and trimmed; defaults are an empty description, no members and capacity 10 |
| ProjectModel.Conforms | models/Project.js:5-9 | the save validators: a required, trimmed name and a capacity of at least 1; so a stored capacity is truthy and the handlers' fallback to 10 for a falsy capacity reads it back unchanged |
| ProjectModel.StoredName | models/Project.js:5 | a stored name survives another save: the trim setter leaves it unchanged and `required` still accepts it |
| NotificationModel.New | models/Notification.js:3-13 | a new notification is valid exactly when its type and title are non-empty, is unread, has the empty message and carries the given recipient, type, title and data |
| NotificationModel.Conforms | models/Notification.js:5-6 | the save validators: a notification is valid exactly when its `type` and `title` are truthy strings |
| UserModel.ParseRole | models/User.js:32-36 | the role enum accepts exactly user and admin |
| UserModel.ParseRoleName | models/User.js:32-36 | parsing a role name gives it back |
| UserModel.NormaliseEmail | models/User.js:20-21 | the `lowercase` and `trim` setters: the result is trimmed, no longer than the input and holds no ASCII capital letter |
| UserModel.LastSep | models/User.js:23 | the index of the last `.` or `-`, or the length when there is none: no separator follows it |
| UserModel.ValidEmail | models/User.js:22-25 | the anchored email pattern: a dotted local part, the first `@`, and a dotted domain whose last separator is a dot followed by two or more word characters; a match has a non-empty local part, exactly one `@`, a domain of four or more characters, and only word characters, `.`, `-` and that `@` |
| UserModel.ValidEmailParts | models/User.js:23 | an address whose local part has no `@` matches exactly when the local part is dotted and the rest is a domain |
| UserModel.EmailAccepted | models/User.js:23 | "ann.lee@mail.fr" matches the pattern |
| UserModel.EmailRefused | models/User.js:23 | "ann@mail.c" does not match: the last label needs two word characters |
| UserModel.Conforms | models/User.js:4-45 | the save validators: required, trimmed names and a required, normalised email matching the pattern; so the trim setters leave a stored name unchanged and a stored email holds an `@` |
| UserModel.CastOfStored | models/User.js:6-26 | casting a stored document's own fields again gives it back, up to the role and avatar defaults |
| UserModel.NormaliseEmailIdempotent | models/User.js:16-21 | normalising an email twice is normalising once, and the lowercase and trim setters commute |
| UserModel.Cast | models/User.js:4-45 | a new user document has trimmed names, the normalised email, the given password, role user and no avatar |
| UserModel.PreSave | models/User.js:51-69 | the hook fails exactly on an empty password, hashes a modified password, keeps an unmodified one, and changes nothing else |
| UserModel.NoRehash | models/User.js:57-60 | saving again without touching the password does not hash it again |
| UserModel.Save | models/User.js:4-69 | a save succeeds exactly when the document passes the validators and has a password; the stored document is valid and differs at most in its password |
| Text.Trim | models/Project.js:5 | trimming gives a string with no surrounding whitespace, no longer than the input |
| Text.TrimSlice | models/Project.js:5 | the trimmed string is the input without its leading and trailing whitespace |
| Text.TrimOfTrimmed | models/Project.js:5 | trimming a trimmed string changes nothing |
| Text.TrimIdempotent | models/Project.js:5 | trimming twice is trimming once |
| Text.BlankIffAllSpace | controllers/taskController.js:62 | a string trims to nothing exactly when it is all whitespace |
| Text.LowerTrimCommute | models/User.js:20-21 | lowercasing and trimming commute |
| Text.LowerIdempotent | models/User.js:20 | lowercasing twice is lowercasing once |
| Text.IndexOf | middleware/auth.js:6 | the index of a character's first occurrence, or the length when it is absent |
| Text.Utf16Length | controllers/userController.js:122 | `length` counts UTF-16 code units: between one and two per character, exactly one per character when none lies above U+FFFF |
| Text.Utf16LengthAppend | controllers/userController.js:122 | the length of a concatenation is the sum of the lengths |
| Text.SplitPieces | middleware/auth.js:6 | no piece of a split contains the separator |
| Files.RelativePath | controllers/projectController.js:94 | dropping the leading slash: a root-relative URL is "/" followed by its path, and any other string is kept |
| Files.UploadUrl | controllers/taskController.js:323 | an upload's URL starts with `/uploads/` |
| Files.UploadUrlPath | controllers/taskController.js:323 | the URL of an upload names the file `uploads/<name>` |
| Files.Disk.Unlink | controllers/projectController.js:97-104 | after a best-effort removal the file is gone, unless its removal fails, and no other file changes |
| Files.Normalise | controllers/userController.js:153 | `path.join` below the backend root, as segments: no empty or `.` segment is left |
| Files.Resolve | controllers/userController.js:153 | resolving onto a resolved stack leaves no empty or `.` segment; a `..` cancels the segment before it or stays in front |
| Files.ResolvePlain | controllers/userController.js:153 | segments that are neither empty, `.` nor `..` are only stacked up |
| Files.NormalisePlain | controllers/userController.js:153 | a path with no empty, `.` or `..` segment resolves to its own `/`-separated segments |
| Files.UploadUrlResolves | controllers/taskController.js:323 | the URL of an upload with a plain file name resolves to that file inside the uploads directory |
| Lists.CompactContents | controllers/projectController.js:16 | `filter(Boolean)` keeps exactly the present ids |
| Lists.CompactAllPresent | controllers/projectController.js:16 | an array with no falsy entry loses nothing |
| Lists.WithoutContents | controllers/taskController.js:78 | filtering the creator out keeps every other id and drops the creator |
| Lists.NotIn | controllers/projectController.js:172 | the added members are the new entries not in the old list, each as often as in the new list |
| Lists.Include | controllers/taskController.js:432-439 | adding an assignee appends the id only when it is absent, keeps the old list as a prefix, and leaves every other id's count alone |
| Lists.IncludeIdempotent | controllers/taskController.js:432-439 | adding the same assignee twice is adding it once |
| Lists.IncludeNoDuplicates | controllers/taskController.js:432-439 | adding keeps a duplicate-free list duplicate-free |
| Lists.DistinctContents | controllers/taskController.js:685 | the distinct ids of a `$in` query hold every listed id exactly once |
| Ordering.InsertByKey | controllers/notificationController.js:5 | inserting into a newest-first list keeps it newest first and adds exactly that element |
| Ordering.SortNewestFirst | controllers/notificationController.js:5 | `sort({createdAt: -1})` gives a newest-first permutation of its input |
| Ordering.SortSorted | controllers/notificationController.js:5 | sorting a newest-first list changes nothing |
| Ordering.AscendingContents | controllers/notificationController.js:5 | the id scan is strictly increasing and lists exactly the members below the bound |
| Ordering.AscendingSize | controllers/notificationController.js:5 | the id scan lists each member once |
| Database.InsertedContents | controllers/projectController.js:46 | consecutive inserts keep the old documents and put the i-th new one under the i-th fresh id |
| Database.InsertedSize | controllers/projectController.js:46 | inserting under fresh ids adds exactly as many documents as were inserted |
| Database.Deleted | controllers/projectController.js:120 | `deleteMany` keeps exactly the other keys, with their documents |
| Database.DeletedCount | controllers/projectController.js:120-125 | the documents kept and the deleted count add up to what was there |
| Database.UsersValidAdd | models/User.js:16-21 | a valid user with an email nobody has keeps the users valid and the emails unique |
| Database.Store.InsertTasks | controllers/projectController.js:46 | `insertMany` stores each task under the next fresh id, in order, and keeps the store valid |
| Database.Store.InsertNotifications | controllers/taskController.js:116-130 | the notification loop stores the first `delivered` notifications under fresh ids and stops at the first failure |
| Database.Store.InsertUser | controllers/userController.js:24-26 | a new user goes under a fresh id and the emails stay unique |
| Auth.BearerToken | middleware/auth.js:6 | a token exists exactly when there is a header whose second space-separated piece is non-empty, and it is that piece: the text between the first and the second space, with no space in it |
| Auth.SecondPiece | middleware/auth.js:6 | the second piece of a split runs from just after the first space to the next space or the end |
| Auth.BearerRoundTrip | middleware/auth.js:6 | a `<scheme> <token>` header yields the token back |
| Auth.BearerIgnoresRest | middleware/auth.js:6 | whatever follows a second space is ignored: `<scheme> <token> <rest>` yields the token |
| Auth.NoSpaceNoToken | middleware/auth.js:6-9 | a header without a space carries no token |
| Auth.Authenticate | middleware/auth.js:4-27 | 401 for a missing token, a failed verification or an unknown user, with `next` not called; otherwise `userId` and `user` are set and `next` is called exactly once |
| Auth.Allowed | middleware/auth.js:30 | a single role becomes the one-element list and a list is kept |
| Auth.RequireRole | middleware/auth.js:29-35 | `next` is called exactly when there is a user whose role is allowed; otherwise 403 |
| Auth.OneRoleIsSingleton | middleware/auth.js:30 | a single role guards exactly as the list holding it |
| Auth.AdminGuard | middleware/auth.js:31-34 | the admin guard passes exactly admins |
| TaskController.AssigneeListContents | controllers/taskController.js:72-76 | no field gives no id, one id gives itself, and an array gives exactly its truthy entries |
| TaskController.SharedAssigneesContents | controllers/taskController.js:69-79 | collaborators only on a shared task, never the creator, and otherwise every listed id |
| TaskController.MayModifyCases | controllers/taskController.js:161-171 | admins may always edit; a project task only admins may edit; any other task its owner or an admin |
| TaskController.ReviewedStatus | controllers/taskController.js:537-546 | the status never moves backwards; at 100 it is done, or stays validated; progress above 0 moves todo to in_progress; without progress it stays put |
| TaskController.ReviewedStatusIdempotent | controllers/taskController.js:537-546 | applying the same progress twice changes the status once |
| TaskController.NonAdminsContents | controllers/taskController.js:344-346 | the role filter keeps exactly the listed users that exist and are not admins |
| TaskController.SubmissionRecipients | controllers/taskController.js:333-347 | the owner's report goes to the non-admin assignees, anyone else's to the owner unless an admin; never to an admin or an unknown user |
| TaskController.Notices | controllers/taskController.js:116-129 | one notification per recipient |
| TaskController.NoticesContents | controllers/taskController.js:116-129 | the i-th notification goes to the i-th recipient, unread and valid, with the given type, title and data |
| TaskController.Notify | controllers/taskController.js:116-130 | the first `delivered` notifications are stored under fresh ids, in recipient order |
| TaskController.InsertAndNotify | controllers/taskController.js:110-130 | the task goes under a fresh id, then its notifications under the ids that follow |
| TaskController.NewTaskOutcome | controllers/taskController.js:62-106 | 400 exactly for a missing or blank title or a collaborator outside the project, 500 exactly for a bad priority or visibility; a created task is a fresh "todo" at progress 0 owned by the caller, with the requested priority and visibility, and at most its first collaborator, never the caller, none if personal, a project member on a project task |
| TaskController.AllMembers | controllers/taskController.js:85-90 | the loop answers true exactly when every collaborator is a member |
| TaskController.CheckNewTask | controllers/taskController.js:62-91 | the 400 checks fire exactly on a missing or blank title, an unknown project, or a collaborator outside it |
| TaskController.BuildTask | controllers/taskController.js:62-111 | an error exactly when createTask refuses, with its status; otherwise the document is the one createTask stores, and it is valid |
| TaskController.SaveSharedTask | controllers/taskController.js:110-134 | the task goes under a fresh id and the collaborators' notifications follow as far as they get |
| TaskController.CreateTask | controllers/taskController.js:54-147 | a refusal answers its status and stores nothing; otherwise the new task goes under a fresh id and each shared collaborator is notified until the first failure |
| TaskController.EditOutcome | controllers/taskController.js:173-209 | an update fails exactly on a blank title, an unknown status or an unknown visibility, and answers 500 |
| TaskController.EditFields | controllers/taskController.js:173-207 | a saved update changes only the eight editable fields: title and description trimmed, progress clamped, completed only when given; a project task's assignees and visibility are frozen; priority and project never change |
| TaskController.EditTwice | controllers/taskController.js:173-207 | sending the same update twice saves what sending it once saved |
| TaskController.EmptyEdit | controllers/taskController.js:173-207 | an update that sets nothing saves the task as it was |
| TaskController.ApplyFields | controllers/taskController.js:173-207 | the field-by-field assignments give the edited plain fields |
| TaskController.ApplyEdit | controllers/taskController.js:173-209 | the assignments and save validation give the edit outcome |
| TaskController.UpdateTask | controllers/taskController.js:150-217 | 404 for an unknown task, 403 unless the caller may edit it, and then the edit outcome; only a successful edit changes the store |
| TaskController.DeleteTask | controllers/taskController.js:220-248 | 404 for an unknown task, 403 exactly when the caller may not modify it; a deletion removes that task alone |
| TaskController.AnswerTask | controllers/taskController.js:251-277 | 404 or 403 change nothing; an assignee's answer sets the participation and appends one log entry; a failed owner notification answers 500 after the save |
| TaskController.AnsweredEffect | controllers/taskController.js:259-261 | an answer sets the participation, appends one entry recording who answered, how and when, keeps the earlier entries and every other field, and keeps the task valid |
| TaskController.AcceptTask | controllers/taskController.js:251-277 | 404 for an unknown task and 403 for a non-assignee, both changing nothing; otherwise exactly the participation becomes accepted with one log entry appended, and the owner's notification is stored, or the reply is 500 after the save when it fails |
| TaskController.DeclineTask | controllers/taskController.js:280-304 | 404 for an unknown task and 403 for a non-assignee, both changing nothing; otherwise exactly the participation becomes declined with one log entry appended, and the owner's notification is stored, or the reply is 500 after the save when it fails |
| TaskController.WithReport | controllers/taskController.js:312-328 | 403 unless an assignee or the owner, checked before the content; 400 for blank content; otherwise exactly one submitted report with the trimmed content is appended |
| TaskController.SubmitProgress | controllers/taskController.js:307-374 | the report outcome is stored; the other party is notified as far as the loop gets; a refusal changes nothing |
| TaskController.AdminAssignTask | controllers/taskController.js:425-448 | 404 exactly for an unknown task, with nothing changed; an existing task always succeeds: the user is added if absent, the participation returns to pending, nothing else changes |
| TaskController.AssignTwice | controllers/taskController.js:432-441 | assigning the same user twice leaves the task as assigning once |
| TaskController.AdminValidateTask | controllers/taskController.js:451-466 | 404 exactly for an unknown task, with nothing changed; an existing task always becomes validated, with the validator recorded, completed, progress 100, nothing else |
| TaskController.AdminMarkDone | controllers/taskController.js:469-483 | 404 exactly for an unknown task, with nothing changed; an existing task always becomes done, completed, progress 100, nothing else |
| TaskController.ParseDecision | controllers/taskController.js:519 | only "approved" and "rejected" are decisions |
| TaskController.ReviewOutcome | controllers/taskController.js:515-547 | 404 exactly for an unknown report, 400 exactly for a bad decision or an unjustified rejection; otherwise only that report changes, it records decision, reviewer, time and comment, and an approval with progress clamps it, moves the status forward and completes at 100 |
| TaskController.ReviewTwice | controllers/taskController.js:528-547 | a second identical review leaves the task where the first put it |
| TaskController.ApplyReview | controllers/taskController.js:515-547 | the step-by-step review gives the review outcome and the report's author |
| TaskController.ReviewProgress | controllers/taskController.js:511-582 | 404 for an unknown task, then the review outcome; the report's author is notified unless that fails, which is swallowed |
| TaskController.GetTaskReports | controllers/taskController.js:585-636 | 404 for an unknown task, 403 unless owner or assignee, otherwise every report of the task newest first |
| TaskController.AdminTaskOutcome | controllers/taskController.js:641-681 | 400 exactly without title or project id, 404 for an unknown project, 500 for a blank title or bad priority; a created task is a fresh "todo" of the project, assigned to every given id without a membership check, shared exactly when it has assignees, one attachment per upload |
| TaskController.BuildAdminTask | controllers/taskController.js:641-680 | an error exactly when the handler refuses; otherwise the stored document, valid |
| TaskController.SaveProjectTask | controllers/taskController.js:680-696 | the task is stored, the non-admin assignees notified in turn, and a failed notification answers 500 after the save |
| TaskController.AdminCreateTaskWithAttachments | controllers/taskController.js:639-703 | a refusal stores nothing; otherwise the task goes under a fresh id and the answer is 201 exactly when every non-admin assignee was notified |
| ProjectController.MemberListContents | controllers/projectController.js:16 | the member list keeps exactly the present ids of an array, and is empty otherwise |
| ProjectController.WelcomeTasks | controllers/projectController.js:33-44 | one welcome task per member |
| ProjectController.WelcomeTasksContents | controllers/projectController.js:33-44 | the i-th welcome task is a valid "todo", pending, at progress 0, medium priority, owned by the admin, assigned to the i-th member alone and linked to the project |
| ProjectController.InsertWelcome | controllers/projectController.js:45-49 | `insertMany` stores the first `inserted` welcome tasks under fresh ids |
| ProjectController.SweptEffect | controllers/projectController.js:166-169 | the sweep deletes no task and changes only assignees; other projects' tasks and tasks with a remaining member are untouched; afterwards every project task has no assignee or a member |
| ProjectController.SweptIdempotent | controllers/projectController.js:166-169 | sweeping twice is sweeping once |
| ProjectController.Sweep | controllers/projectController.js:166-169 | `updateMany` leaves the swept tasks |
| ProjectController.CreateOutcome | controllers/projectController.js:12-29 | 400 exactly for a missing or blank name or more members than a given capacity; a created project is valid, owned by the admin, with the trimmed name, the present member ids, and the given capacity or 10 |
| ProjectController.DefaultCapacityNotChecked | controllers/projectController.js:17-26 | without a capacity, eleven members are accepted although the default is 10 |
| ProjectController.BuildProject | controllers/projectController.js:12-29 | an error exactly when createProject refuses; otherwise the stored document, valid |
| ProjectController.SaveNewProject | controllers/projectController.js:21-50 | the project goes under a fresh id, then its welcome tasks as far as the insert gets |
| ProjectController.CreateProject | controllers/projectController.js:9-57 | a refusal stores nothing; otherwise the project and its members' welcome tasks are stored |
| ProjectController.CreateWelcomes | controllers/projectController.js:31-46 | each member gets exactly one welcome task, assigned to that member and linked to the project |
| ProjectController.MembersOutcome | controllers/projectController.js:148-163 | 404 exactly for an unknown project, 400 exactly for more members than the numeric capacity or the current one; a saved update is valid and within capacity |
| ProjectController.UpdateProjectMembers | controllers/projectController.js:144-198 | a refusal changes nothing; otherwise the members and capacity are saved, the sweep runs and the new members get welcome tasks |
| ProjectController.WelcomesOnlyNew | controllers/projectController.js:157-185 | welcome tasks go to members not there before, and every such member gets one |
| ProjectController.UpdateOutcome | controllers/projectController.js:208-221 | the name changes only to a non-blank trimmed value, the capacity only to a number of at least 1, the members only to a list that fits, and the project stays valid |
| ProjectController.CapacityNotRechecked | controllers/projectController.js:211-221 | without a member list, the capacity can drop below the member count |
| ProjectController.EditProject | controllers/projectController.js:208-221 | the assignments give the updated project, and 400 exactly for a list that does not fit |
| ProjectController.UpdateProject | controllers/projectController.js:201-236 | 404 or 400 change nothing; otherwise the update is saved and the sweep runs against the saved members |
| ProjectController.AttachmentPathsContents | controllers/projectController.js:91-95 | the files of a report are those its non-empty attachment URLs name |
| ProjectController.ReportPathsContents | controllers/projectController.js:89-91 | the files of a task are those of its reports |
| ProjectController.TaskPathsContents | controllers/projectController.js:86-89 | the files of the cleanup are those of the project's tasks' reports |
| ProjectController.ProjectTasksContents | controllers/projectController.js:86 | the listed tasks are exactly the project's tasks |
| ProjectController.RemoveAttachmentFiles | controllers/projectController.js:91-105 | every file an attachment names is removed unless its removal fails |
| ProjectController.RemoveReportFiles | controllers/projectController.js:79-111 | the nested cleanup loops remove every file of every report of every task, except those whose removal fails |
| ProjectController.DeleteCascade | controllers/projectController.js:115-131 | one transaction removes the project's tasks, its notifications and the project; the counts are the numbers removed |
| ProjectController.CascadeEffect | controllers/projectController.js:120-127 | afterwards nothing refers to the project and every other task and notification is unchanged |
| ProjectController.DeleteProject | controllers/projectController.js:71-141 | 404 for an unknown project; the file cleanup never blocks the database phase; a commit removes everything at once with exact counts; a failed one leaves the store unchanged and answers 500 |
| NotificationController.ListNotifications | controllers/notificationController.js:3-10 | the answer is newest first and, as a multiset, exactly the caller's notifications in id order |
| NotificationController.ListContents | controllers/notificationController.js:3-10 | the list is newest first, has one entry per notification of the caller, and holds nothing addressed to anyone else |
| NotificationController.MailboxSize | controllers/notificationController.js:5 | one entry per notification of the caller |
| NotificationController.MailboxMembers | controllers/notificationController.js:5 | the unsorted mailbox holds the caller's notifications and no other |
| NotificationController.MarkedReadEffect | controllers/notificationController.js:12-23 | marking sets `read` on that notification alone, and marking twice is marking once |
| NotificationController.MarkAsRead | controllers/notificationController.js:12-23 | 404 unless the notification exists and is the caller's; otherwise it is marked read |
| NotificationController.DeleteNotification | controllers/notificationController.js:25-34 | 404 unless the notification exists and is the caller's; otherwise that one alone is removed |
| NotificationController.DeleteOneEffect | controllers/notificationController.js:28 | a deletion removes only that notification and leaves one fewer |
| NotificationController.DeleteAllNotifications | controllers/notificationController.js:36-43 | exactly the caller's notifications are removed, and their number is answered |
| NotificationController.MailboxCleared | controllers/notificationController.js:38 | afterwards the caller has none, and every other user's notification is as it was |
| UserController.FindByEmail | controllers/userController.js:18 | a found user has that email; no result means no user below the bound has it |
| UserController.FindByEmailTaken | controllers/userController.js:18-21 | with every id below the bound, the lookup finds a user exactly when the email is taken |
| UserController.RegisterOutcome | controllers/userController.js:12-26 | a registered user is valid and has an email nobody has, the trimmed names, the normalised email, the hashed password, role user and no avatar |
| UserController.RegisterUser | controllers/userController.js:9-33 | 400 for a missing field or a taken email, 500 for a document that fails validation, with no store change; otherwise exactly one user is added |
| UserController.RegisterAddsOne | controllers/userController.js:24-26 | a registration adds exactly one user and keeps the others |
| UserController.LoginUser | controllers/userController.js:36-90 | a session only when both credentials are truthy, for a stored user whose email is the normalised input and whose password the comparison accepts, with the token signed for that user; every refusal is 400 or 500 |
| UserController.LoginOutcome | controllers/userController.js:40-85 | 400 for a missing credential or an unknown email; a session only for a stored user with that email whose password compares equal, signed for that user and carrying the role; and conversely, with unique emails, the stored user with that email gets exactly its session when its password is non-empty and matches, 500 when it is empty, 400 when it does not match |
| UserController.RegisterThenLogin | controllers/userController.js:9-90 | logging in with the credentials just registered gives the new user's session |
| UserController.LoginAfterInsert | controllers/userController.js:46-83 | a user stored under the newest id is found by email and logs in |
| UserController.AdminDeleteUser | controllers/userController.js:104-115 | 404 for an unknown id; otherwise that user alone is removed |
| UserController.AdminResetPassword | controllers/userController.js:118-134 | 400 for a missing password or one under 6 UTF-16 code units, checked before the lookup; 404 for an unknown id; otherwise only that user's password changes, to the hash of the new one |
| UserController.AstralPasswordLength | controllers/userController.js:122 | three characters outside the Basic Multilingual Plane already meet the minimum, since `length` counts each as two code units |
| UserController.ProfileKeeps | controllers/userController.js:143-146 | email, role, password and creation date are untouched; a field not given keeps its value; the update is idempotent |
| UserController.AsWrittenDeletesCurrentAvatar | controllers/userController.js:145-154 | as written, re-sending the current avatar URL with a trailing space meets the removal condition, so the cleanup empties `{uploads/a.png}` though the profile keeps `/uploads/a.png`; the corrected cleanup keeps the file |
| UserController.CleanupAsWritten | controllers/userController.js:149-155 | the cleanup as written removes at most one path, the previous avatar's, whose string starts with `uploads/` (before resolution), and agrees with the trimmed comparison whenever the avatar URL is sent already trimmed or not at all |
| UserController.RemovesOnlyReplacedAvatar | controllers/userController.js:150-155 | corrected condition (not the source's): comparing with the stored, trimmed avatar removes the old path only when the profile no longer holds that URL, and the removed path string starts with `uploads/` |
| UserController.EditProfile | controllers/userController.js:139-146 | the assignments give the updated profile |
| UserController.CleanupKeepsAvatar | controllers/userController.js:150-155 | corrected cleanup (not the source's): it removes at most one path and never the path string the new root-relative avatar names; the source as written lacks this property (see Findings) |
| UserController.AvatarPathEscapes | controllers/userController.js:150-154 | as written, a stored avatar `/uploads/../<name>` passes the `/uploads/` prefix test, yet the file `path.join` resolves it to is `<name>` outside the uploads directory; the resolved comparison refuses it |
| UserController.ContainedCleanup | controllers/userController.js:150-154 | corrected condition (not the source's): comparing resolved paths, the removed file lies inside the uploads directory and is never the file of the stored avatar, and the condition implies the trimmed one |
| UserController.ContainedCleanupOnDisk | controllers/userController.js:150-154 | corrected cleanup (not the source's), on files named by their resolved paths: at most one file goes; it lies inside the uploads directory and is not the stored avatar's file, so that file and every file outside uploads stay |
| UserController.ContainedAgreesOnUploads | controllers/userController.js:150 | for avatars under `/uploads/` with plain file names, the resolved condition holds exactly when the trimmed one does: the correction loses no cleanup of a replaced upload |
| UserController.CleanUpAvatar | controllers/userController.js:149-156 | the previous avatar's file is removed best effort exactly when line 150's condition holds: an avatar URL was sent, the previous one is set, differs from the URL as sent (untrimmed) and lies under `/uploads/` |
| UserController.SaveProfile | controllers/userController.js:140-146 | 404 for an unknown user, 500 when the save rejects the profile, with nothing changed; otherwise exactly that user is replaced by the edited profile |
| UserController.UpdateProfile | controllers/userController.js:137-169 | 404 for an unknown user, 500 when the save rejects the profile, with nothing changed; otherwise the edited profile is saved and the previous avatar cleaned up under the as-written condition |

## Left out

- Text.Lower, UserModel.NormaliseEmail and UserModel.Cast lowercase only
  the ASCII letters A to Z. JavaScript's `toLowerCase` uses the full
  Unicode case mapping, for example U+212A KELVIN SIGN to "k". An address
  with such letters therefore normalises differently here.

- getTasks, adminListAllTasks, listProjects, adminListUsers and
  listAllUsersBasic are left out. They are read-only queries whose work is
  response shaping (ObjectId `toString`, field selection).
- adminTeamStats is left out: its completion rate uses floating-point
  `Math.round`.
- Response bodies, messages, logging and notification message text are
  not modelled. A notification's `message` is the schema default, and its
  `data` keeps only the task and project ids.
- bcrypt, `jwt.sign` and `jwt.verify` are function parameters. Token
  expiry and the secret are not modelled.
- `Number(progress)` and its NaN check are not modelled: request numbers
  are integers. The numeric type tests (`typeof x === 'number'`,
  `typeof completed === "boolean"`) become option types.
- createProject's `maxMembers` is numeric here. A string capacity, coerced
  by the comparison, is not modelled.
- Dates are natural-number clock values. `new Date(...)` of an invalid
  date is not modelled, and neither is `updatedAt` from `timestamps: true`.
- File removal is best effort on a set of paths, some of which fail. The
  asynchronous completion of `fs.unlink` in updateProfile is not modelled.
- UserController.CleanupAsWritten, UserController.RemovesOnlyReplacedAvatar,
  UserController.CleanupKeepsAvatar and Files.Disk key files by the
  unresolved path string. In the program `path.join` resolves the path, so
  a `..` segment escapes the uploads directory and a `.` segment makes two
  strings name one file. Their "starts with `uploads/`" and "never that
  file" clauses are about path strings. Resolved paths are used only by
  UserController.AvatarPathEscapes, UserController.ContainedCleanup,
  UserController.ContainedCleanupOnDisk and UserController.ContainedAgreesOnUploads.
- UserController.CleanupKeepsAvatar is stated only for a new avatar that
  is a root-relative URL. "uploads/x" and "/uploads/x" name the same file,
  so for other URLs the property does not hold.
- The deletion transaction is one atomic store update, and `committed`
  says whether it commits. Sessions and retries are not modelled.
- Concurrent requests and last-writer-wins interleavings are not modelled.
  Each handler runs alone.
- Multer limits are not modelled: file counts, sizes and MIME types.
- AdminCreateTaskWithAttachments notifies the distinct non-admin assignees
  in their order of first appearance in the request. MongoDB's `User.find`
  may return them in another order; that order is not modelled.
- Auth.Authenticate stores the whole user in `req.user`. The middleware
  selects only some fields.
- The legacy scalar `assignedTo` and its string comparisons are not
  modelled: `assignedTo` is always a list of ids.
- A failing `task.save()` or `project.save()` for reasons other than
  validation (a lost connection) is not modelled.

## Findings

| source | as written | input that shows it | evidently intended | confidence | as-written member | corrected member |
|---|---|---|---|---|---|---|
| controllers/userController.js:150 | updateProfile saves the trimmed `avatarUrl`, but decides whether to delete the previous avatar's file by comparing it with the untrimmed request value | stored avatar "/uploads/a.png", request avatarUrl "/uploads/a.png " (trailing space): the profile keeps "/uploads/a.png", and that file is deleted | compare the previous avatar with the value actually stored (the trimmed one), so the current avatar's file is never deleted | medium, not executed | UserController.AsWrittenDeletesCurrentAvatar | UserController.RemovesOnlyReplacedAvatar |
| controllers/userController.js:150-154 | the `/uploads/` prefix test is made on the stored avatar URL before `path.join` resolves it, and `avatarUrl` has no validator | a user stores avatarUrl "/uploads/../server.js", then sends any other avatarUrl: the test holds and the application's own `server.js`, beside `controllers/`, is unlinked | test containment and difference on the resolved path, so only files inside the uploads directory other than the stored avatar's are removed | medium, not executed | UserController.AvatarPathEscapes | UserController.ContainedCleanupOnDisk |
