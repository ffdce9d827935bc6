/** The task handlers. Each one loads a task, checks who is asking, changes
    the loaded copy field by field and saves it back; notifications follow
    the save. Every handler sits behind the authentication middleware, so
    the acting user (`req.userId`, `req.user`) is a stored user; the admin
    handlers sit behind `requireRole("admin")` as well.

    Notification creation is an outside call that may fail. `delivered`
    says how many of a handler's creates succeed before the first failure
    (a failure ends the loop that issues them); `notified` says whether a
    single create succeeds. */
module TaskController {
  import opened Base
  import Text
  import Lists
  import Ordering
  import opened TaskModel
  import NotificationModel
  import UserModel
  import ProjectModel
  import Database

  // ---------------------------------------------------------------------
  // Request shapes and pure pieces of the handlers

  /** An `assignedTo` request field: absent or falsy, a single id, or an
      array whose falsy entries are `None`. */
  datatype IdsInput = NoIds | OneId(id: UserId) | IdList(ids: seq<Option<UserId>>)

  /** `Array.isArray(a) ? a.filter(Boolean) : a ? [a] : []`. */
  function AssigneeList(a: IdsInput): seq<UserId> {
    match a
    case NoIds => []
    case OneId(u) => [u]
    case IdList(xs) => Lists.Compact(xs)
  }

  /** No field gives no id, a single id gives itself, and an array gives
      exactly its non-falsy entries. */
  lemma AssigneeListContents(a: IdsInput)
    ensures a.NoIds? ==> AssigneeList(a) == []
    ensures a.OneId? ==> AssigneeList(a) == [a.id]
    ensures a.IdList? ==> forall u :: u in AssigneeList(a) <==> Some(u) in a.ids
  {
    if a.IdList? {
      Lists.CompactContents(a.ids);
    }
  }

  /** The collaborators a new task is shared with: none unless the
      visibility is "shared", and never the creator. */
  function SharedAssignees(a: IdsInput, visibility: string, actor: UserId): seq<UserId> {
    if visibility == "shared" then Lists.Without(AssigneeList(a), actor) else []
  }

  lemma SharedAssigneesContents(a: IdsInput, visibility: string, actor: UserId)
    ensures actor !in SharedAssignees(a, visibility, actor)
    ensures visibility != "shared" ==> SharedAssignees(a, visibility, actor) == []
    ensures visibility == "shared" ==>
      forall u :: u in SharedAssignees(a, visibility, actor) <==> u in AssigneeList(a) && u != actor
  {
    Lists.WithoutContents(AssigneeList(a), actor);
  }

  /** `req.user?.role === 'admin'`. */
  predicate IsAdmin(users: map<UserId, UserModel.User>, u: UserId) {
    u in users && users[u].role == UserModel.Admin
  }

  /** The edit and delete rule: a project task only by an admin, any other
      task by its owner or an admin. */
  predicate MayModify(t: Task, actor: UserId, admin: bool) {
    if t.projectId.Some? then admin else t.userId == actor || admin
  }

  lemma MayModifyCases(t: Task, actor: UserId, admin: bool)
    ensures admin ==> MayModify(t, actor, admin)
    ensures t.projectId.Some? && !admin ==> !MayModify(t, actor, admin)
    ensures t.projectId.None? ==> (MayModify(t, actor, admin) <==> t.userId == actor || admin)
  {
  }

  /** The status a task moves to when a review sets its progress to `pct`:
      at 100 it is done (a validated task stays validated), any progress
      takes a task out of todo, and nothing ever moves backwards. */
  function ReviewedStatus(s: TaskStatus, pct: int): (r: TaskStatus)
    ensures Rank(r) >= Rank(s)
    ensures pct >= MaxProgress ==> r == Done || r == Validated
    ensures pct >= MaxProgress && s == Validated ==> r == Validated
    ensures 0 < pct < MaxProgress && s == Todo ==> r == InProgress
    ensures pct <= 0 ==> r == s
    ensures r != s ==> (s == Todo || s == InProgress) && pct > 0
  {
    if pct >= MaxProgress then (if s == Validated || s == Done then s else Done)
    else if pct > 0 && s == Todo then InProgress
    else s
  }

  /** Reviewing again with the same progress changes nothing more. */
  lemma ReviewedStatusIdempotent(s: TaskStatus, pct: int)
    ensures ReviewedStatus(ReviewedStatus(s, pct), pct) == ReviewedStatus(s, pct)
  {
  }

  /** The users in `xs` that exist and are not admins, in order: the
      `User.find({_id: {$in: xs}})` role filter. */
  function NonAdmins(users: map<UserId, UserModel.User>, xs: seq<UserId>): (r: seq<UserId>)
    ensures |r| <= |xs|
  {
    if xs == [] then []
    else if xs[0] in users && users[xs[0]].role != UserModel.Admin then [xs[0]] + NonAdmins(users, xs[1..])
    else NonAdmins(users, xs[1..])
  }

  /** The filter keeps exactly the listed users that exist and are not
      admins. */
  lemma {:induction false} NonAdminsContents(users: map<UserId, UserModel.User>, xs: seq<UserId>)
    ensures forall u :: u in NonAdmins(users, xs) <==> u in xs && u in users && users[u].role != UserModel.Admin
  {
    if xs != [] {
      NonAdminsContents(users, xs[1..]);
      assert forall u :: u in xs <==> u == xs[0] || u in xs[1..];
    }
  }

  /** Who hears about a submitted report: the assignees when the owner
      submits, the owner otherwise; admins and unknown users are dropped. */
  function SubmissionRecipients(users: map<UserId, UserModel.User>, t: Task, actor: UserId): (r: seq<UserId>)
    ensures forall u :: u in r ==> u in users && users[u].role != UserModel.Admin
    ensures actor == t.userId ==> forall u :: u in r <==> u in t.assignedTo && u in users && users[u].role != UserModel.Admin
    ensures actor != t.userId ==> (r == [t.userId] <==> t.userId in users && users[t.userId].role != UserModel.Admin)
    ensures actor != t.userId ==> r == [] || r == [t.userId]
  {
    NonAdminsContents(users, if actor == t.userId then t.assignedTo else [t.userId]);
    NonAdmins(users, if actor == t.userId then t.assignedTo else [t.userId])
  }

  /** One notification per recipient, all about the same task. */
  function Notices(recipients: seq<UserId>, kind: string, title: string, data: NotificationModel.Payload, now: Timestamp)
    : (r: seq<NotificationModel.Notification>)
    requires kind != "" && title != ""
    ensures |r| == |recipients|
  {
    seq(|recipients|, i requires 0 <= i < |recipients| => NotificationModel.New(recipients[i], kind, title, data, now))
  }

  /** The i-th notification goes to the i-th recipient, unread, valid and
      with the given kind, title and data. */
  lemma NoticesContents(recipients: seq<UserId>, kind: string, title: string, data: NotificationModel.Payload, now: Timestamp)
    requires kind != "" && title != ""
    ensures var r := Notices(recipients, kind, title, data, now);
      forall i :: 0 <= i < |r| ==>
        && r[i].recipientId == recipients[i] && r[i].kind == kind && r[i].title == title
        && r[i].data == data && !r[i].read && NotificationModel.Conforms(r[i])
  {
  }

  const TitleShared: string := "Nouvelle tâche partagée"
  const TitleAccepted: string := "Participation acceptée"
  const TitleDeclined: string := "Participation refusée"
  const TitleSubmitted: string := "Nouveau compte-rendu d'avancement"
  const TitleApproved: string := "Soumission d'avancement approuvée"
  const TitleRejected: string := "Soumission d'avancement refusée"
  const TitleProjectTask: string := "Nouvelle tâche projet"

  function DisplayName(u: UserModel.User): string {
    u.firstName + " " + u.lastName
  }

  // ---------------------------------------------------------------------
  // Handlers

  /** Creates one notification per recipient, in order, until the first
      failure (`delivered` of them succeed). */
  method Notify(db: Database.Store, recipients: seq<UserId>, kind: string, title: string,
                data: NotificationModel.Payload, now: Timestamp, delivered: nat)
    returns (sent: nat)
    requires db.Valid() && kind != "" && title != ""
    modifies db`notifications, db`nextId
    ensures db.Valid()
    ensures sent == Min(delivered, |recipients|) && db.nextId == old(db.nextId) + sent
    ensures db.notifications == Database.Inserted(old(db.notifications), old(db.nextId),
              Prefix(Notices(recipients, kind, title, data, now), delivered))
  {
    var ns := Notices(recipients, kind, title, data, now);
    NoticesContents(recipients, kind, title, data, now);
    sent := db.InsertNotifications(ns, delivered);
    assert ns[..sent] == Prefix(ns, delivered);
  }

  /** The mailbox `after` holds what `before` held plus the first
      `delivered` notifications to `recipients` about the new task `id`,
      under the ids that follow it: what the notification loop after a
      task's creation leaves when it stops at its first failure. */
  ghost predicate TaskNotified(before: map<NotificationId, NotificationModel.Notification>,
                               after: map<NotificationId, NotificationModel.Notification>, id: TaskId,
                               recipients: seq<UserId>, kind: string, title: string,
                               projectId: Option<ProjectId>, now: Timestamp, delivered: nat)
  {
    && kind != "" && title != ""
    && after == Database.Inserted(before, id + 1,
                 Prefix(Notices(recipients, kind, title, NotificationModel.Payload(Some(id), projectId), now), delivered))
  }

  /** Saves a new task, then notifies the recipients about it. */
  method InsertAndNotify(db: Database.Store, t: Task, recipients: seq<UserId>, kind: string, title: string,
                         projectId: Option<ProjectId>, now: Timestamp, delivered: nat)
    returns (id: TaskId, sent: nat)
    requires db.Valid() && Conforms(t) && kind != "" && title != ""
    modifies db`tasks, db`notifications, db`nextId
    ensures db.Valid()
    ensures id == old(db.nextId) && id !in old(db.tasks) && db.tasks == old(db.tasks)[id := t]
    ensures sent == Min(delivered, |recipients|)
    ensures db.notifications == Database.Inserted(old(db.notifications), id + 1,
              Prefix(Notices(recipients, kind, title, NotificationModel.Payload(Some(id), projectId), now), delivered))
  {
    id := db.InsertTask(t);
    sent := Notify(db, recipients, kind, title, NotificationModel.Payload(Some(id), projectId), now, delivered);
  }

  // ---------------------------------------------------------------------
  // createTask

  /** The membership rule of createTask: when the task belongs to a project
      and has collaborators, the project must exist and hold every one of
      them. */
  predicate MembersMissing(projects: map<ProjectId, ProjectModel.Project>, projectId: Option<ProjectId>,
                           arr: seq<UserId>) {
    && projectId.Some? && |arr| > 0
    && (projectId.value !in projects || exists u :: u in arr && u !in projects[projectId.value].members)
  }

  /** The error createTask answers, if any: 400 for a missing or blank
      title or a collaborator outside the project, then 500 when the save
      rejects the priority or the visibility. */
  function NewTaskRefusal(projects: map<ProjectId, ProjectModel.Project>, actor: UserId,
                          title: Option<string>, priority: Option<string>, projectId: Option<ProjectId>,
                          assignedTo: IdsInput, visibility: Option<string>): Option<Status>
  {
    var vis := OrElse(visibility, "personal");
    var arr := SharedAssignees(assignedTo, vis, actor);
    if title.None? || Text.IsBlank(title.value) || MembersMissing(projects, projectId, arr) then Some(BadRequest)
    else if ParsePriority(OrElse(priority, "medium")).None? || ParseVisibility(vis).None? then Some(ServerError)
    else None
  }

  /** The document createTask saves when it refuses nothing. Only the first
      collaborator is stored on the task. */
  function NewTaskDoc(actor: UserId, title: Option<string>, description: Option<string>,
                      dueDate: Option<Timestamp>, priority: Option<string>, projectId: Option<ProjectId>,
                      assignedTo: IdsInput, visibility: Option<string>, now: Timestamp): Task
  {
    var vis := OrElse(visibility, "personal");
    var arr := SharedAssignees(assignedTo, vis, actor);
    Blank(Text.Trim(title.GetOr("")), actor, now).(
      description := if description.Some? then Text.Trim(description.value) else "",
      dueDate := dueDate, priority := ParsePriority(OrElse(priority, "medium")).GetOr(Medium),
      projectId := projectId, assignedTo := if arr == [] then [] else [arr[0]],
      visibility := ParseVisibility(vis).GetOr(Personal))
  }

  /** createTask answers 400 exactly on a missing or blank title and on a
      collaborator outside the project, 500 exactly on an unknown priority
      or visibility; a created task is a valid fresh "todo" owned by the
      caller, with the requested priority and visibility, and at most one
      collaborator, never the caller, none on a personal task, and a
      member of the project on a project task. */
  lemma NewTaskOutcome(projects: map<ProjectId, ProjectModel.Project>, actor: UserId,
                       title: Option<string>, description: Option<string>, dueDate: Option<Timestamp>,
                       priority: Option<string>, projectId: Option<ProjectId>,
                       assignedTo: IdsInput, visibility: Option<string>, now: Timestamp)
    ensures var refusal := NewTaskRefusal(projects, actor, title, priority, projectId, assignedTo, visibility);
      var arr := SharedAssignees(assignedTo, OrElse(visibility, "personal"), actor);
      var refused := title.None? || Text.IsBlank(title.value) || MembersMissing(projects, projectId, arr);
      && (refusal == Some(BadRequest) <==> refused)
      && (refusal == Some(ServerError) <==>
            !refused && (ParsePriority(OrElse(priority, "medium")).None? ||
                         ParseVisibility(OrElse(visibility, "personal")).None?))
      && (refusal.Some? ==> refusal == Some(BadRequest) || refusal == Some(ServerError))
    ensures NewTaskRefusal(projects, actor, title, priority, projectId, assignedTo, visibility).None? ==>
      var t := NewTaskDoc(actor, title, description, dueDate, priority, projectId, assignedTo, visibility, now);
      var arr := SharedAssignees(assignedTo, OrElse(visibility, "personal"), actor);
      && Conforms(t)
      && t.userId == actor && t.createdAt == now
      && t.title == Text.Trim(title.value) && t.projectId == projectId && t.dueDate == dueDate
      && Some(t.priority) == ParsePriority(OrElse(priority, "medium"))
      && Some(t.visibility) == ParseVisibility(OrElse(visibility, "personal"))
      && t.status == Todo && !t.completed && t.progress == 0
      && t.participationStatus == Pending && t.validatedBy.None?
      && t.progressReports == [] && t.participationLogs == [] && t.attachments == []
      && t.assignedTo == (if arr == [] then [] else [arr[0]])
      && actor !in t.assignedTo
      && (t.visibility == Personal ==> t.assignedTo == [])
      && (projectId.Some? && t.assignedTo != [] ==>
            projectId.value in projects && t.assignedTo[0] in projects[projectId.value].members)
  {
    var arr := SharedAssignees(assignedTo, OrElse(visibility, "personal"), actor);
    SharedAssigneesContents(assignedTo, OrElse(visibility, "personal"), actor);
    if arr != [] {
      assert arr[0] in arr;
    }
  }

  /** Whether every collaborator is a member, checked one by one. */
  method AllMembers(arr: seq<UserId>, members: seq<UserId>) returns (b: bool)
    ensures b <==> forall u :: u in arr ==> u in members
  {
    var i := 0;
    while i < |arr|
      invariant 0 <= i <= |arr|
      invariant forall j :: 0 <= j < i ==> arr[j] in members
    {
      if arr[i] !in members {
        assert arr[i] in arr;
        return false;
      }
      i := i + 1;
    }
    return true;
  }

  /** The 400 checks of createTask: a title, and collaborators that all
      belong to an existing project. */
  method CheckNewTask(projects: map<ProjectId, ProjectModel.Project>, title: Option<string>,
                      projectId: Option<ProjectId>, arr: seq<UserId>)
    returns (refused: bool)
    ensures refused <==> title.None? || Text.IsBlank(title.value) || MembersMissing(projects, projectId, arr)
  {
    if title.None? || Text.IsBlank(title.value) {
      return true;
    }
    if projectId.Some? && |arr| > 0 {
      if projectId.value !in projects {
        return true;
      }
      var ok := AllMembers(arr, projects[projectId.value].members);
      if !ok {
        return true;
      }
    }
    return false;
  }

  /** The checks and the document literal of createTask, before the save. */
  method BuildTask(projects: map<ProjectId, ProjectModel.Project>, actor: UserId,
                   title: Option<string>, description: Option<string>, dueDate: Option<Timestamp>,
                   priority: Option<string>, projectId: Option<ProjectId>,
                   assignedTo: IdsInput, visibility: Option<string>, now: Timestamp)
    returns (r: Result<Task>)
    ensures var refusal := NewTaskRefusal(projects, actor, title, priority, projectId, assignedTo, visibility);
      && (r.Err? <==> refusal.Some?)
      && (r.Err? ==> r.status == refusal.value)
      && (r.Ok? ==> r.value == NewTaskDoc(actor, title, description, dueDate, priority, projectId,
                                          assignedTo, visibility, now) && Conforms(r.value))
  {
    var vis := OrElse(visibility, "personal");
    var arr := SharedAssignees(assignedTo, vis, actor);
    var refused := CheckNewTask(projects, title, projectId, arr);
    if refused {
      return Err(BadRequest);
    }

    // Save-time validation of the two enum fields.
    var pr := ParsePriority(OrElse(priority, "medium"));
    var vs := ParseVisibility(vis);
    if pr.None? || vs.None? {
      return Err(ServerError);
    }

    // The document literal, with the schema defaults for the rest.
    var t := Blank(Text.Trim(title.value), actor, now).(
      description := if description.Some? then Text.Trim(description.value) else "",
      dueDate := dueDate, priority := pr.value, projectId := projectId,
      assignedTo := if arr == [] then [] else [arr[0]], visibility := vs.value);
    NewTaskOutcome(projects, actor, title, description, dueDate, priority, projectId,
                   assignedTo, visibility, now);
    return Ok(t);
  }

  /** The save and the swallowed collaborator notifications of createTask. */
  method SaveSharedTask(db: Database.Store, t: Task, arr: seq<UserId>, projectId: Option<ProjectId>,
                        now: Timestamp, delivered: nat)
    returns (r: Result<TaskId>)
    requires db.Valid() && Conforms(t)
    modifies db`tasks, db`notifications, db`nextId
    ensures db.Valid()
    ensures var id := old(db.nextId);
            && r == Ok(id) && id !in old(db.tasks) && db.tasks == old(db.tasks)[id := t]
            && TaskNotified(old(db.notifications), db.notifications, id, arr, NotificationModel.KindAssignment,
                            TitleShared, projectId, now, delivered)
  {
    var id, _ := InsertAndNotify(db, t, arr, NotificationModel.KindAssignment, TitleShared,
                                 projectId, now, delivered);
    return Ok(id);
  }

  /** createTask. The notifications to the collaborators follow the save; a
      failing one ends the loop and is swallowed. */
  method CreateTask(db: Database.Store, actor: UserId,
                    title: Option<string>, description: Option<string>, dueDate: Option<Timestamp>,
                    priority: Option<string>, projectId: Option<ProjectId>,
                    assignedTo: IdsInput, visibility: Option<string>,
                    now: Timestamp, delivered: nat)
    returns (r: Result<TaskId>)
    requires db.Valid()
    modifies db`tasks, db`notifications, db`nextId
    ensures db.Valid()
    ensures var refusal := NewTaskRefusal(old(db.projects), actor, title, priority, projectId, assignedTo, visibility);
      && (refusal.Some? ==>
            r == Err(refusal.value) && db.tasks == old(db.tasks) && db.notifications == old(db.notifications))
      && (refusal.None? ==>
            && var id := old(db.nextId);
            && r == Ok(id) && id !in old(db.tasks)
            && db.tasks == old(db.tasks)[id := NewTaskDoc(actor, title, description, dueDate, priority,
                                                          projectId, assignedTo, visibility, now)]
            && TaskNotified(old(db.notifications), db.notifications, id,
                            SharedAssignees(assignedTo, OrElse(visibility, "personal"), actor),
                            NotificationModel.KindAssignment, TitleShared, projectId, now, delivered))
  {
    var arr := SharedAssignees(assignedTo, OrElse(visibility, "personal"), actor);
    var doc := BuildTask(db.projects, actor, title, description, dueDate, priority, projectId,
                         assignedTo, visibility, now);
    if doc.Err? {
      return Err(doc.status);
    }
    r := SaveSharedTask(db, doc.value, arr, projectId, now, delivered);
  }

  // ---------------------------------------------------------------------
  // updateTask

  /** The fields of an update request that the handler applies. The
      request's `priority` and `projectId` are read but never applied.
      `assignedTo` is the id list the schema casts the field to. */
  datatype TaskEdit = TaskEdit(
    title: Option<string>, description: Option<string>, dueDate: Option<Timestamp>,
    completed: Option<bool>, progress: Option<int>, status: Option<string>,
    assignedTo: Option<seq<UserId>>, visibility: Option<string>)

  const NoEdit: TaskEdit := TaskEdit(None, None, None, None, None, None, None, None)

  /** The edits that fail validation when the task is saved. */
  predicate EditInvalid(t: Task, e: TaskEdit) {
    || (e.title.Some? && Text.IsBlank(e.title.value))
    || (Truthy(e.status) && ParseStatus(e.status.value).None?)
    || (t.projectId.None? && e.visibility.Some? && ParseVisibility(e.visibility.value).None?)
  }

  /** The six plain fields updateTask assigns: a given title or description
      is trimmed, a given progress clamped to [0, 100]; the assignees of a
      project task are frozen. */
  function EditedFields(t: Task, e: TaskEdit): Task {
    t.(title := if e.title.Some? then Text.Trim(e.title.value) else t.title,
       description := if e.description.Some? then Text.Trim(e.description.value) else t.description,
       dueDate := if e.dueDate.Some? then e.dueDate else t.dueDate,
       completed := if e.completed.Some? then e.completed.value else t.completed,
       progress := if e.progress.Some? then Clamp(e.progress.value) else t.progress,
       assignedTo := if t.projectId.None? && e.assignedTo.Some? then e.assignedTo.value else t.assignedTo)
  }

  /** The task updateTask saves: the plain fields, then the two enum fields
      (the visibility of a project task is frozen), then save validation. */
  function Edited(t: Task, e: TaskEdit): Result<Task> {
    var st := if Truthy(e.status) then ParseStatus(e.status.value) else Some(t.status);
    var vs := if t.projectId.None? && e.visibility.Some? then ParseVisibility(e.visibility.value) else Some(t.visibility);
    if st.None? || vs.None? then Err(ServerError)
    else
      var u := EditedFields(t, e).(status := st.value, visibility := vs.value);
      if Conforms(u) then Ok(u) else Err(ServerError)
  }

  /** Validation fails exactly on a blank title, an unknown status or an
      unknown visibility, and answers 500. */
  lemma EditOutcome(t: Task, e: TaskEdit)
    requires Conforms(t)
    ensures Edited(t, e).Err? <==> EditInvalid(t, e)
    ensures Edited(t, e).Err? ==> Edited(t, e) == Err(ServerError)
  {
  }

  /** A saved edit conforms, touches only the eight editable fields, and
      gives each of them the value the request asks for. */
  lemma EditFields(t: Task, e: TaskEdit)
    requires Edited(t, e).Ok?
    ensures var u := Edited(t, e).value;
      && Conforms(u)
      && u.(title := t.title, description := t.description, dueDate := t.dueDate,
            completed := t.completed, progress := t.progress, status := t.status,
            assignedTo := t.assignedTo, visibility := t.visibility) == t
      && u.title == (if e.title.Some? then Text.Trim(e.title.value) else t.title)
      && u.description == (if e.description.Some? then Text.Trim(e.description.value) else t.description)
      && u.dueDate == (if e.dueDate.Some? then e.dueDate else t.dueDate)
      && u.completed == (if e.completed.Some? then e.completed.value else t.completed)
      && u.progress == (if e.progress.Some? then Clamp(e.progress.value) else t.progress)
      && (Truthy(e.status) ==> StatusName(u.status) == e.status.value)
      && (!Truthy(e.status) ==> u.status == t.status)
      && (t.projectId.Some? ==> u.assignedTo == t.assignedTo && u.visibility == t.visibility)
      && (t.projectId.None? && e.assignedTo.Some? ==> u.assignedTo == e.assignedTo.value)
      && (t.projectId.None? && e.visibility.Some? ==> VisibilityName(u.visibility) == e.visibility.value)
  {
  }

  /** Sending the same update twice saves what sending it once saved. */
  lemma EditTwice(t: Task, e: TaskEdit)
    requires Edited(t, e).Ok?
    ensures Edited(Edited(t, e).value, e) == Edited(t, e)
  {
    if e.title.Some? { Text.TrimIdempotent(e.title.value); }
    if e.description.Some? { Text.TrimIdempotent(e.description.value); }
    if e.progress.Some? { ClampIdempotent(e.progress.value); }
  }

  /** An update that sets nothing saves the task as it was. */
  lemma EmptyEdit(t: Task)
    requires Conforms(t)
    ensures Edited(t, NoEdit) == Ok(t)
  {
  }

  /** Assigns the plain fields of a loaded task one by one. */
  method ApplyFields(t0: Task, e: TaskEdit) returns (t: Task)
    ensures t == EditedFields(t0, e)
  {
    t := t0;
    if e.title.Some? {
      t := t.(title := Text.Trim(e.title.value));
    }
    if e.description.Some? {
      t := t.(description := Text.Trim(e.description.value));
    }
    if e.dueDate.Some? {
      t := t.(dueDate := e.dueDate);
    }
    if e.completed.Some? {
      t := t.(completed := e.completed.value);
    }
    if e.progress.Some? {
      t := t.(progress := Clamp(e.progress.value));
    }
    if t.projectId.None? && e.assignedTo.Some? {
      t := t.(assignedTo := e.assignedTo.value);
    }
  }

  /** Applies an update to a loaded task and validates it as the save does. */
  method ApplyEdit(t0: Task, e: TaskEdit) returns (r: Result<Task>)
    ensures r == Edited(t0, e)
  {
    var t := ApplyFields(t0, e);
    // An enum field takes the string it is given; an unknown one fails the save.
    var status := Some(t.status);
    if Truthy(e.status) {
      status := ParseStatus(e.status.value);
    }
    var visibility := Some(t.visibility);
    if t.projectId.None? && e.visibility.Some? {
      visibility := ParseVisibility(e.visibility.value);
    }
    if status.None? || visibility.None? {
      return Err(ServerError);
    }
    t := t.(status := status.value, visibility := visibility.value);
    if !Conforms(t) {
      return Err(ServerError);
    }
    return Ok(t);
  }

  /** updateTask. */
  method UpdateTask(db: Database.Store, actor: UserId, id: TaskId, e: TaskEdit) returns (r: Result<Task>)
    requires db.Valid()
    modifies db`tasks
    ensures db.Valid()
    ensures id !in old(db.tasks) ==> r == Err(NotFound)
    ensures id in old(db.tasks) && !MayModify(old(db.tasks)[id], actor, IsAdmin(db.users, actor)) ==>
      r == Err(Forbidden)
    ensures id in old(db.tasks) && MayModify(old(db.tasks)[id], actor, IsAdmin(db.users, actor)) ==>
      r == Edited(old(db.tasks)[id], e)
    ensures r.Err? ==> db.tasks == old(db.tasks)
    ensures r.Ok? ==> id in old(db.tasks) && db.tasks == old(db.tasks)[id := r.value]
  {
    if id !in db.tasks {
      return Err(NotFound);
    }
    var t := db.tasks[id];
    var admin := IsAdmin(db.users, actor);
    if !MayModify(t, actor, admin) {
      return Err(Forbidden);
    }
    // Past this gate a project task is edited by an admin, so the
    // handler's "project task and not admin" guards never fire.
    r := ApplyEdit(t, e);
    if r.Ok? {
      db.SaveTask(id, r.value);
    }
  }

  // ---------------------------------------------------------------------
  // deleteTask, acceptTask, declineTask

  /** deleteTask. */
  method DeleteTask(db: Database.Store, actor: UserId, id: TaskId) returns (r: Result<()>)
    requires db.Valid()
    modifies db`tasks
    ensures db.Valid()
    ensures id !in old(db.tasks) ==> r == Err(NotFound)
    ensures id in old(db.tasks) ==>
      (r.Ok? <==> MayModify(old(db.tasks)[id], actor, IsAdmin(db.users, actor)))
    ensures r.Err? ==> db.tasks == old(db.tasks)
    ensures r.Err? && id in old(db.tasks) ==> r == Err(Forbidden)
    ensures r.Ok? ==> db.tasks == old(db.tasks) - {id} && |db.tasks| == |old(db.tasks)| - 1
  {
    if id !in db.tasks {
      return Err(NotFound);
    }
    if !MayModify(db.tasks[id], actor, IsAdmin(db.users, actor)) {
      return Err(Forbidden);
    }
    db.RemoveTask(id);
    return Ok(());
  }
  /** The task after assignee `actor` answers: the participation is the
      answer and one log entry records who answered, how and when. */
  function Answered(t: Task, actor: UserId, name: string, answer: Participation, now: Timestamp): Task {
    t.(participationStatus := answer,
       participationLogs := t.participationLogs + [ParticipationLog(actor, name, answer, now)])
  }

  /** The notification that tells the owner of task `id` about the answer. */
  function AnswerNotice(t: Task, id: TaskId, answer: Participation, now: Timestamp): NotificationModel.Notification {
    NotificationModel.New(t.userId, NotificationModel.KindParticipation,
      if answer == Accepted then TitleAccepted else TitleDeclined,
      NotificationModel.Payload(Some(id), t.projectId), now)
  }

  /** An answer changes the participation and appends one entry to the log,
      keeping the earlier entries and every other field. */
  lemma AnsweredEffect(t: Task, actor: UserId, name: string, answer: Participation, now: Timestamp)
    ensures var u := Answered(t, actor, name, answer, now);
      && u.participationStatus == answer
      && |u.participationLogs| == |t.participationLogs| + 1
      && u.participationLogs[..|t.participationLogs|] == t.participationLogs
      && u.participationLogs[|t.participationLogs|] == ParticipationLog(actor, name, answer, now)
      && u.(participationStatus := t.participationStatus, participationLogs := t.participationLogs) == t
      && (Conforms(t) && answer != Pending ==> Conforms(u))
  {
  }

  /** acceptTask and declineTask: an assignee answers; the answer is logged
      and the owner is told. The notification is not guarded, so when it
      fails the answer is already saved and the reply is 500. */
  method AnswerTask(db: Database.Store, actor: UserId, id: TaskId, answer: Participation,
                    now: Timestamp, notified: bool)
    returns (r: Result<Task>)
    requires db.Valid() && actor in db.users && answer != Pending
    modifies db`tasks, db`notifications, db`nextId
    ensures db.Valid()
    ensures id !in old(db.tasks) ==> r == Err(NotFound)
    ensures id in old(db.tasks) && actor !in old(db.tasks)[id].assignedTo ==> r == Err(Forbidden)
    ensures r == Err(NotFound) || r == Err(Forbidden) ==>
      db.tasks == old(db.tasks) && db.notifications == old(db.notifications)
    ensures id in old(db.tasks) && actor in old(db.tasks)[id].assignedTo ==>
      var t := old(db.tasks)[id];
      var u := Answered(t, actor, DisplayName(db.users[actor]), answer, now);
      && db.tasks == old(db.tasks)[id := u]
      && (notified ==> r == Ok(u) && db.notifications == old(db.notifications)[old(db.nextId) := AnswerNotice(t, id, answer, now)])
      && (!notified ==> r == Err(ServerError) && db.notifications == old(db.notifications))
  {
    if id !in db.tasks {
      return Err(NotFound);
    }
    var t := db.tasks[id];
    if actor !in t.assignedTo {
      return Err(Forbidden);
    }
    t := t.(participationStatus := answer);
    t := t.(participationLogs := t.participationLogs +
              [ParticipationLog(actor, DisplayName(db.users[actor]), answer, now)]);
    db.SaveTask(id, t);
    if !notified {
      return Err(ServerError);
    }
    var n := NotificationModel.New(t.userId, NotificationModel.KindParticipation,
               if answer == Accepted then TitleAccepted else TitleDeclined,
               NotificationModel.Payload(Some(id), t.projectId), now);
    var _ := db.InsertNotification(n);
    return Ok(t);
  }

  /** acceptTask. */
  method AcceptTask(db: Database.Store, actor: UserId, id: TaskId, now: Timestamp, notified: bool)
    returns (r: Result<Task>)
    requires db.Valid() && actor in db.users
    modifies db`tasks, db`notifications, db`nextId
    ensures db.Valid()
    ensures id !in old(db.tasks) ==> r == Err(NotFound)
    ensures id in old(db.tasks) && actor !in old(db.tasks)[id].assignedTo ==> r == Err(Forbidden)
    ensures r == Err(NotFound) || r == Err(Forbidden) ==>
      db.tasks == old(db.tasks) && db.notifications == old(db.notifications)
    ensures id in old(db.tasks) && actor in old(db.tasks)[id].assignedTo ==>
      var t := old(db.tasks)[id];
      var u := Answered(t, actor, DisplayName(db.users[actor]), Accepted, now);
      && db.tasks == old(db.tasks)[id := u]
      && (notified ==> r == Ok(u) && db.notifications == old(db.notifications)[old(db.nextId) := AnswerNotice(t, id, Accepted, now)])
      && (!notified ==> r == Err(ServerError) && db.notifications == old(db.notifications))
  {
    r := AnswerTask(db, actor, id, Accepted, now, notified);
  }

  /** declineTask. */
  method DeclineTask(db: Database.Store, actor: UserId, id: TaskId, now: Timestamp, notified: bool)
    returns (r: Result<Task>)
    requires db.Valid() && actor in db.users
    modifies db`tasks, db`notifications, db`nextId
    ensures db.Valid()
    ensures id !in old(db.tasks) ==> r == Err(NotFound)
    ensures id in old(db.tasks) && actor !in old(db.tasks)[id].assignedTo ==> r == Err(Forbidden)
    ensures r == Err(NotFound) || r == Err(Forbidden) ==>
      db.tasks == old(db.tasks) && db.notifications == old(db.notifications)
    ensures id in old(db.tasks) && actor in old(db.tasks)[id].assignedTo ==>
      var t := old(db.tasks)[id];
      var u := Answered(t, actor, DisplayName(db.users[actor]), Declined, now);
      && db.tasks == old(db.tasks)[id := u]
      && (notified ==> r == Ok(u) && db.notifications == old(db.notifications)[old(db.nextId) := AnswerNotice(t, id, Declined, now)])
      && (!notified ==> r == Err(ServerError) && db.notifications == old(db.notifications))
  {
    r := AnswerTask(db, actor, id, Declined, now, notified);
  }

  // ---------------------------------------------------------------------
  // submitProgress

  /** The task after `actor` submits a progress report: assignees and the
      owner may submit, and the content must not be blank. The report
      takes the id `rid`. */
  function WithReport(t: Task, actor: UserId, rid: ReportId, content: Option<string>,
                      files: seq<Upload>, now: Timestamp): (r: Result<Task>)
    ensures r == Err(Forbidden) <==> actor !in t.assignedTo && actor != t.userId
    ensures r == Err(BadRequest) <==>
      (actor in t.assignedTo || actor == t.userId) && (content.None? || Text.IsBlank(content.value))
    ensures r.Err? ==> r == Err(Forbidden) || r == Err(BadRequest)
    ensures r.Ok? ==>
      && content.Some?
      && r.value.(progressReports := t.progressReports) == t
      && |r.value.progressReports| == |t.progressReports| + 1
      && r.value.progressReports[..|t.progressReports|] == t.progressReports
      && var rep := r.value.progressReports[|t.progressReports|];
      && rep.id == rid && rep.userId == actor && rep.createdAt == now
      && rep.content == Text.Trim(content.value) && rep.content != ""
      && rep.status == Submitted && rep.reviewedBy.None? && rep.reviewedAt.None? && rep.reviewComment == ""
      && rep.attachments == FromUploads(files)
    ensures r.Ok? && Conforms(t) ==> Conforms(r.value)
  {
    if actor !in t.assignedTo && actor != t.userId then Err(Forbidden)
    else if content.None? || Text.IsBlank(content.value) then Err(BadRequest)
    else
      var rep := ProgressReport(rid, actor, Text.Trim(content.value), now, Submitted,
                                None, None, "", FromUploads(files));
      Ok(t.(progressReports := t.progressReports + [rep]))
  }

  /** submitProgress. The report takes the next id and the notifications
      the ones after it; their failure is swallowed. */
  method SubmitProgress(db: Database.Store, actor: UserId, id: TaskId, content: Option<string>,
                        files: seq<Upload>, now: Timestamp, delivered: nat)
    returns (r: Result<Task>)
    requires db.Valid()
    modifies db`tasks, db`notifications, db`nextId
    ensures db.Valid()
    ensures id !in old(db.tasks) ==> r == Err(NotFound)
    ensures id in old(db.tasks) ==> r == WithReport(old(db.tasks)[id], actor, old(db.nextId), content, files, now)
    ensures r.Err? ==> db.tasks == old(db.tasks) && db.notifications == old(db.notifications)
    ensures r.Ok? ==>
      && id in old(db.tasks) && db.tasks == old(db.tasks)[id := r.value]
      && var t := old(db.tasks)[id];
      && var rs := SubmissionRecipients(db.users, t, actor);
      db.notifications == Database.Inserted(old(db.notifications), old(db.nextId) + 1,
        Prefix(Notices(rs, NotificationModel.KindProgressSubmitted, TitleSubmitted,
                       NotificationModel.Payload(Some(id), t.projectId), now), delivered))
  {
    if id !in db.tasks {
      return Err(NotFound);
    }
    var t := db.tasks[id];
    if actor !in t.assignedTo && actor != t.userId {
      return Err(Forbidden);
    }
    if content.None? || Text.IsBlank(content.value) {
      return Err(BadRequest);
    }
    var loaded := t;
    var rid := db.NewId();
    var report := ProgressReport(rid, actor, Text.Trim(content.value), now, Submitted,
                                 None, None, "", FromUploads(files));
    t := t.(progressReports := t.progressReports + [report]);
    db.SaveTask(id, t);

    // The report does not change who takes part in the task.
    var rs := SubmissionRecipients(db.users, loaded, actor);
    var _ := Notify(db, rs, NotificationModel.KindProgressSubmitted, TitleSubmitted,
                    NotificationModel.Payload(Some(id), loaded.projectId), now, delivered);
    return Ok(t);
  }

  // ---------------------------------------------------------------------
  // adminAssignTask, adminValidateTask, adminMarkDone

  /** adminAssignTask: adds the user to the assignees unless present and
      restarts the participation cycle. */
  method AdminAssignTask(db: Database.Store, actor: UserId, id: TaskId, user: UserId) returns (r: Result<Task>)
    requires db.Valid() && IsAdmin(db.users, actor)
    modifies db`tasks
    ensures db.Valid()
    ensures id !in old(db.tasks) <==> r == Err(NotFound)
    ensures id in old(db.tasks) ==> r.Ok?
    ensures r.Err? ==> db.tasks == old(db.tasks)
    ensures r.Ok? ==>
      var t := old(db.tasks)[id];
      && r.value == t.(assignedTo := Lists.Include(t.assignedTo, user), participationStatus := Pending)
      && db.tasks == old(db.tasks)[id := r.value]
  {
    if id !in db.tasks {
      return Err(NotFound);
    }
    var t := db.tasks[id];
    t := t.(assignedTo := Lists.Include(t.assignedTo, user));
    t := t.(participationStatus := Pending);
    db.SaveTask(id, t);
    return Ok(t);
  }

  /** Assigning the same user twice leaves one entry for that user. */
  lemma AssignTwice(t: Task, user: UserId)
    ensures var once := t.(assignedTo := Lists.Include(t.assignedTo, user), participationStatus := Pending);
      var twice := once.(assignedTo := Lists.Include(once.assignedTo, user), participationStatus := Pending);
      twice == once
  {
    Lists.IncludeIdempotent(t.assignedTo, user);
  }

  /** adminValidateTask. */
  method AdminValidateTask(db: Database.Store, actor: UserId, id: TaskId) returns (r: Result<Task>)
    requires db.Valid() && IsAdmin(db.users, actor)
    modifies db`tasks
    ensures db.Valid()
    ensures id !in old(db.tasks) <==> r == Err(NotFound)
    ensures id in old(db.tasks) ==> r.Ok?
    ensures r.Err? ==> db.tasks == old(db.tasks)
    ensures r.Ok? ==>
      var t := old(db.tasks)[id];
      && r.value == t.(status := Validated, validatedBy := Some(actor), completed := true, progress := MaxProgress)
      && db.tasks == old(db.tasks)[id := r.value]
  {
    if id !in db.tasks {
      return Err(NotFound);
    }
    var t := db.tasks[id];
    t := t.(status := Validated);
    t := t.(validatedBy := Some(actor));
    t := t.(completed := true);
    t := t.(progress := 100);
    db.SaveTask(id, t);
    return Ok(t);
  }

  /** adminMarkDone. */
  method AdminMarkDone(db: Database.Store, actor: UserId, id: TaskId) returns (r: Result<Task>)
    requires db.Valid() && IsAdmin(db.users, actor)
    modifies db`tasks
    ensures db.Valid()
    ensures id !in old(db.tasks) <==> r == Err(NotFound)
    ensures id in old(db.tasks) ==> r.Ok?
    ensures r.Err? ==> db.tasks == old(db.tasks)
    ensures r.Ok? ==>
      var t := old(db.tasks)[id];
      && r.value == t.(status := Done, completed := true, progress := MaxProgress)
      && db.tasks == old(db.tasks)[id := r.value]
  {
    if id !in db.tasks {
      return Err(NotFound);
    }
    var t := db.tasks[id];
    t := t.(status := Done);
    t := t.(completed := true);
    t := t.(progress := 100);
    db.SaveTask(id, t);
    return Ok(t);
  }

  /** The decisions a review accepts. */
  function ParseDecision(d: Option<string>): (r: Option<ReportStatus>)
    ensures r.Some? ==> r.value != Submitted && d.Some? && ReportStatusName(r.value) == d.value
    ensures r.None? ==> d.None? || (d.value != "approved" && d.value != "rejected")
  {
    if d == Some("approved") then Some(Approved)
    else if d == Some("rejected") then Some(Rejected)
    else None
  }

  // ---------------------------------------------------------------------
  // reviewProgress

  /** A rejection must say why. */
  predicate ReviewRefused(d: Option<ReportStatus>, comment: Option<string>) {
    d.None? || (d.value == Rejected && (!Truthy(comment) || Text.IsBlank(comment.value)))
  }

  /** The task after an admin reviews report `reportId`: the report records
      the decision, the reviewer, the time and the comment; an approval that
      carries a progress sets the task's progress, which moves its status
      forward and completes it at 100. */
  function Reviewed(t: Task, actor: UserId, reportId: ReportId, decision: Option<string>,
                    comment: Option<string>, progress: Option<int>, now: Timestamp): Result<Task>
  {
    var k := FindReport(t.progressReports, reportId);
    var d := ParseDecision(decision);
    if k == |t.progressReports| then Err(NotFound)
    else if ReviewRefused(d, comment) then Err(BadRequest)
    else
      var rep := t.progressReports[k].(status := d.value, reviewedBy := Some(actor),
                                       reviewedAt := Some(now), reviewComment := OrElse(comment, ""));
      var moves := d.value == Approved && progress.Some?;
      var pct := if moves then Clamp(progress.value) else t.progress;
      Ok(t.(progressReports := t.progressReports[k := rep],
            progress := pct,
            status := if moves then ReviewedStatus(t.status, pct) else t.status,
            completed := t.completed || (moves && pct >= MaxProgress)))
  }

  /** An unknown report answers 404 and a missing decision or an unjustified
      rejection 400; otherwise only the reviewed report changes, it records
      the decision, the reviewer, the time and the comment, and an approval
      with a progress sets the clamped progress, moves the status forward
      and completes the task at 100. The review keeps the task valid. */
  lemma ReviewOutcome(t: Task, actor: UserId, reportId: ReportId, decision: Option<string>,
                      comment: Option<string>, progress: Option<int>, now: Timestamp)
    ensures var r := Reviewed(t, actor, reportId, decision, comment, progress, now);
      var k := FindReport(t.progressReports, reportId);
      && (r == Err(NotFound) <==> k == |t.progressReports|)
      && (r == Err(BadRequest) <==> k < |t.progressReports| && ReviewRefused(ParseDecision(decision), comment))
      && (r.Err? ==> r == Err(NotFound) || r == Err(BadRequest))
    ensures var r := Reviewed(t, actor, reportId, decision, comment, progress, now);
      r.Ok? ==>
      var k := FindReport(t.progressReports, reportId);
      var d := ParseDecision(decision);
      var u := r.value;
      && k < |t.progressReports| && d.Some? && !ReviewRefused(d, comment)
      && |u.progressReports| == |t.progressReports|
      && (forall j :: 0 <= j < |t.progressReports| && j != k ==> u.progressReports[j] == t.progressReports[j])
      && u.progressReports[k] == t.progressReports[k].(status := d.value, reviewedBy := Some(actor),
                                     reviewedAt := Some(now), reviewComment := OrElse(comment, ""))
      && Rank(u.status) >= Rank(t.status)
      && (d.value == Approved && progress.Some? ==>
            && u.progress == Clamp(progress.value)
            && u.status == ReviewedStatus(t.status, Clamp(progress.value))
            && u.completed == (t.completed || Clamp(progress.value) >= MaxProgress))
      && (!(d.value == Approved && progress.Some?) ==>
            u.progress == t.progress && u.status == t.status && u.completed == t.completed)
      && u.(progressReports := t.progressReports, progress := t.progress,
            status := t.status, completed := t.completed) == t
      && (Conforms(t) ==> Conforms(u))
  {
  }

  /** A second identical review leaves the task's state where the first
      one put it. */
  lemma ReviewTwice(t: Task, actor: UserId, reportId: ReportId, decision: Option<string>,
                    comment: Option<string>, progress: Option<int>, now: Timestamp)
    requires Reviewed(t, actor, reportId, decision, comment, progress, now).Ok?
    ensures var u := Reviewed(t, actor, reportId, decision, comment, progress, now).value;
      Reviewed(u, actor, reportId, decision, comment, progress, now) == Ok(u)
  {
    var u := Reviewed(t, actor, reportId, decision, comment, progress, now).value;
    var k := FindReport(t.progressReports, reportId);
    FindReportByIds(u.progressReports, t.progressReports, reportId);
    var rep := u.progressReports[k];
    assert rep.(status := rep.status, reviewedBy := Some(actor), reviewedAt := Some(now),
                reviewComment := OrElse(comment, "")) == rep;
    assert u.progressReports[k := rep] == u.progressReports;
    if ParseDecision(decision) == Some(Approved) && progress.Some? {
      ClampIdempotent(progress.value);
      ReviewedStatusIdempotent(t.status, Clamp(progress.value));
    }
  }

  /** The checks and changes reviewProgress makes to a loaded task; also
      gives the author of the reviewed report. */
  method ApplyReview(t0: Task, actor: UserId, reportId: ReportId, decision: Option<string>,
                     comment: Option<string>, progress: Option<int>, now: Timestamp)
    returns (r: Result<Task>, author: UserId)
    ensures r == Reviewed(t0, actor, reportId, decision, comment, progress, now)
    ensures r.Ok? ==> && FindReport(t0.progressReports, reportId) < |t0.progressReports|
                      && author == t0.progressReports[FindReport(t0.progressReports, reportId)].userId
  {
    var t := t0;
    var k := FindReport(t.progressReports, reportId);
    if k == |t.progressReports| {
      return Err(NotFound), 0;
    }
    var d := ParseDecision(decision);
    if d.None? {
      return Err(BadRequest), 0;
    }
    if d.value == Rejected && (!Truthy(comment) || Text.IsBlank(comment.value)) {
      return Err(BadRequest), 0;
    }
    var rep := t.progressReports[k];
    rep := rep.(status := d.value);
    rep := rep.(reviewedBy := Some(actor));
    rep := rep.(reviewedAt := Some(now));
    rep := rep.(reviewComment := OrElse(comment, ""));
    t := t.(progressReports := t.progressReports[k := rep]);

    if d.value == Approved && progress.Some? {
      var pct := Clamp(progress.value);
      t := t.(progress := pct);
      if pct >= 100 {
        t := t.(completed := true);
        if t.status != Validated && t.status != Done {
          t := t.(status := Done);
        }
      } else if pct > 0 && t.status == Todo {
        t := t.(status := InProgress);
      }
    }
    return Ok(t), rep.userId;
  }

  /** reviewProgress. The author of the report is told; a failure of that
      notification is swallowed. */
  method ReviewProgress(db: Database.Store, actor: UserId, id: TaskId, reportId: ReportId,
                        decision: Option<string>, comment: Option<string>, progress: Option<int>,
                        now: Timestamp, notified: bool)
    returns (r: Result<Task>)
    requires db.Valid() && IsAdmin(db.users, actor)
    modifies db`tasks, db`notifications, db`nextId
    ensures db.Valid()
    ensures id !in old(db.tasks) ==> r == Err(NotFound)
    ensures id in old(db.tasks) ==> r == Reviewed(old(db.tasks)[id], actor, reportId, decision, comment, progress, now)
    ensures r.Err? ==> db.tasks == old(db.tasks) && db.notifications == old(db.notifications)
    ensures r.Ok? ==>
      && id in old(db.tasks) && db.tasks == old(db.tasks)[id := r.value]
      && var t := old(db.tasks)[id];
      && var k := FindReport(t.progressReports, reportId);
      && k < |t.progressReports|
      && db.notifications == (if !notified then old(db.notifications) else
           old(db.notifications)[old(db.nextId) :=
             NotificationModel.New(t.progressReports[k].userId, NotificationModel.KindProgressReview,
               if decision == Some("approved") then TitleApproved else TitleRejected,
               NotificationModel.Payload(Some(id), t.projectId), now)])
  {
    if id !in db.tasks {
      return Err(NotFound);
    }
    var t := db.tasks[id];
    ReviewOutcome(t, actor, reportId, decision, comment, progress, now);
    var author;
    r, author := ApplyReview(t, actor, reportId, decision, comment, progress, now);
    if r.Err? {
      return;
    }
    db.SaveTask(id, r.value);
    if notified {
      var n := NotificationModel.New(author, NotificationModel.KindProgressReview,
                 if decision == Some("approved") then TitleApproved else TitleRejected,
                 NotificationModel.Payload(Some(id), t.projectId), now);
      var _ := db.InsertNotification(n);
    }
  }

  // ---------------------------------------------------------------------
  // getTaskReports

  /** The answer of getTaskReports. */
  datatype ReportsView = ReportsView(
    taskId: TaskId, title: string, assignedTo: seq<UserId>, owner: UserId,
    visibility: Visibility, progress: int, reports: seq<ProgressReport>)

  function CreatedAt(rep: ProgressReport): int { rep.createdAt }

  /** getTaskReports: the owner and the assignees (not admins as such) see
      every report of the task, newest first. */
  function GetTaskReports(tasks: map<TaskId, Task>, id: TaskId, actor: UserId): (r: Result<ReportsView>)
    ensures id !in tasks ==> r == Err(NotFound)
    ensures id in tasks ==> (r.Ok? <==> actor == tasks[id].userId || actor in tasks[id].assignedTo)
    ensures id in tasks && r.Err? ==> r == Err(Forbidden)
    ensures r.Ok? ==>
      && var t := tasks[id];
      && r.value.taskId == id && r.value.title == t.title && r.value.assignedTo == t.assignedTo
      && r.value.owner == t.userId && r.value.visibility == t.visibility && r.value.progress == t.progress
      && multiset(r.value.reports) == multiset(t.progressReports)
      && Ordering.NewestFirst(r.value.reports, CreatedAt)
  {
    if id !in tasks then Err(NotFound)
    else
      var t := tasks[id];
      if actor != t.userId && actor !in t.assignedTo then Err(Forbidden)
      else Ok(ReportsView(id, t.title, t.assignedTo, t.userId, t.visibility, t.progress,
                          Ordering.SortNewestFirst(t.progressReports, CreatedAt)))
  }

  // ---------------------------------------------------------------------
  // adminCreateTaskWithAttachments

  /** The error adminCreateTaskWithAttachments answers, if any: 400 for a
      missing title or project id, 404 for an unknown project, then 500 when
      the save rejects a whitespace-only title or an unknown priority. */
  function AdminTaskRefusal(projects: map<ProjectId, ProjectModel.Project>, title: Option<string>,
                            priority: Option<string>, projectId: Option<ProjectId>): Option<Status>
  {
    if !Truthy(title) || projectId.None? then Some(BadRequest)
    else if projectId.value !in projects then Some(NotFound)
    else if ParsePriority(priority.GetOr("medium")).None? || Text.IsBlank(title.value) then Some(ServerError)
    else None
  }

  /** The document adminCreateTaskWithAttachments saves when it refuses
      nothing. Assignees are not checked against the project's members; the
      priority is defaulted only when it is absent. */
  function AdminTaskDoc(actor: UserId, title: Option<string>, description: Option<string>,
                        dueDate: Option<Timestamp>, priority: Option<string>, projectId: Option<ProjectId>,
                        assignedTo: IdsInput, files: seq<Upload>, now: Timestamp): Task
  {
    var arr := AssigneeList(assignedTo);
    Blank(Text.Trim(title.GetOr("")), actor, now).(
      description := Text.Trim(OrElse(description, "")),
      projectId := projectId, assignedTo := arr,
      visibility := if |arr| > 0 then Shared else Personal,
      priority := ParsePriority(priority.GetOr("medium")).GetOr(Medium),
      dueDate := dueDate, attachments := FromUploads(files))
  }

  /** A missing title or project id answers 400, an unknown project 404, a
      whitespace-only title or an unknown priority 500; a created task is a
      valid fresh "todo" of the project owned by the admin, assigned to
      every given id, shared exactly when it has assignees, carrying one
      attachment per uploaded file. */
  lemma AdminTaskOutcome(projects: map<ProjectId, ProjectModel.Project>, actor: UserId,
                         title: Option<string>, description: Option<string>, dueDate: Option<Timestamp>,
                         priority: Option<string>, projectId: Option<ProjectId>, assignedTo: IdsInput,
                         files: seq<Upload>, now: Timestamp)
    ensures var refusal := AdminTaskRefusal(projects, title, priority, projectId);
      && (refusal == Some(BadRequest) <==> !Truthy(title) || projectId.None?)
      && (refusal == Some(NotFound) <==> Truthy(title) && projectId.Some? && projectId.value !in projects)
      && (refusal == Some(ServerError) <==>
            && Truthy(title) && projectId.Some? && projectId.value in projects
            && (Text.IsBlank(title.value) || ParsePriority(priority.GetOr("medium")).None?))
    ensures AdminTaskRefusal(projects, title, priority, projectId).None? ==>
      var t := AdminTaskDoc(actor, title, description, dueDate, priority, projectId, assignedTo, files, now);
      && Conforms(t) && projectId.Some? && projectId.value in projects
      && t.userId == actor && t.projectId == projectId && t.createdAt == now
      && t.title == Text.Trim(title.value) && t.dueDate == dueDate
      && Some(t.priority) == ParsePriority(priority.GetOr("medium"))
      && t.assignedTo == AssigneeList(assignedTo)
      && (t.visibility == Shared <==> t.assignedTo != [])
      && t.attachments == FromUploads(files)
      && t.status == Todo && !t.completed && t.progress == 0
      && t.participationStatus == Pending && t.progressReports == []
  {
  }

  /** The checks and the document literal of adminCreateTaskWithAttachments. */
  method BuildAdminTask(projects: map<ProjectId, ProjectModel.Project>, actor: UserId,
                        title: Option<string>, description: Option<string>, dueDate: Option<Timestamp>,
                        priority: Option<string>, projectId: Option<ProjectId>, assignedTo: IdsInput,
                        files: seq<Upload>, now: Timestamp)
    returns (r: Result<Task>)
    ensures var refusal := AdminTaskRefusal(projects, title, priority, projectId);
      && (r.Err? <==> refusal.Some?)
      && (r.Err? ==> r.status == refusal.value)
      && (r.Ok? ==> r.value == AdminTaskDoc(actor, title, description, dueDate, priority, projectId,
                                            assignedTo, files, now) && Conforms(r.value))
  {
    if !Truthy(title) || projectId.None? {
      return Err(BadRequest);
    }
    if projectId.value !in projects {
      return Err(NotFound);
    }
    var arr := AssigneeList(assignedTo);
    var attachments := FromUploads(files);
    // Save-time validation: a required title and the priority enum.
    var pr := ParsePriority(priority.GetOr("medium"));
    if pr.None? || Text.IsBlank(title.value) {
      return Err(ServerError);
    }
    var t := Blank(Text.Trim(title.value), actor, now).(
      description := Text.Trim(OrElse(description, "")),
      projectId := projectId, assignedTo := arr,
      visibility := if |arr| > 0 then Shared else Personal,
      priority := pr.value, dueDate := dueDate, attachments := attachments);
    AdminTaskOutcome(projects, actor, title, description, dueDate, priority, projectId,
                     assignedTo, files, now);
    return Ok(t);
  }

  /** The save and the unguarded assignment notifications of
      adminCreateTaskWithAttachments: every non-admin assignee is notified
      (`User.find` on the distinct ids, then the admin filter), and a failing
      notification answers 500 after the save. */
  method SaveProjectTask(db: Database.Store, t: Task, rs: seq<UserId>, projectId: Option<ProjectId>,
                         now: Timestamp, delivered: nat)
    returns (r: Result<TaskId>)
    requires db.Valid() && Conforms(t)
    requires rs == NonAdmins(db.users, Lists.Distinct(t.assignedTo))
    modifies db`tasks, db`notifications, db`nextId
    ensures db.Valid()
    ensures var id := old(db.nextId);
            && id !in old(db.tasks) && db.tasks == old(db.tasks)[id := t]
            && TaskNotified(old(db.notifications), db.notifications, id, rs, NotificationModel.KindAssignment,
                            TitleProjectTask, projectId, now, delivered)
            && (r.Ok? <==> delivered >= |rs|)
            && (r.Ok? ==> r.value == id)
            && (r.Err? ==> r == Err(ServerError))
  {
    var id, sent := InsertAndNotify(db, t, rs, NotificationModel.KindAssignment, TitleProjectTask,
                                    projectId, now, delivered);
    if sent < |rs| {
      return Err(ServerError);
    }
    return Ok(id);
  }

  /** adminCreateTaskWithAttachments. The notifications to the non-admin
      assignees follow the save and are not guarded: a failing one answers
      500 with the task, and the notifications before it, already stored. */
  method AdminCreateTaskWithAttachments(db: Database.Store, actor: UserId,
                                        title: Option<string>, description: Option<string>,
                                        dueDate: Option<Timestamp>, priority: Option<string>,
                                        projectId: Option<ProjectId>, assignedTo: IdsInput,
                                        files: seq<Upload>, now: Timestamp, delivered: nat)
    returns (r: Result<TaskId>)
    requires db.Valid() && IsAdmin(db.users, actor)
    modifies db`tasks, db`notifications, db`nextId
    ensures db.Valid()
    ensures var refusal := AdminTaskRefusal(old(db.projects), title, priority, projectId);
      && (refusal.Some? ==>
            r == Err(refusal.value) && db.tasks == old(db.tasks) && db.notifications == old(db.notifications))
      && (refusal.None? ==>
            && var id := old(db.nextId);
            && id !in old(db.tasks)
            && db.tasks == old(db.tasks)[id := AdminTaskDoc(actor, title, description, dueDate, priority,
                                                            projectId, assignedTo, files, now)]
            && var rs := NonAdmins(old(db.users), Lists.Distinct(AssigneeList(assignedTo)));
            && TaskNotified(old(db.notifications), db.notifications, id, rs, NotificationModel.KindAssignment,
                            TitleProjectTask, projectId, now, delivered)
            && (r.Ok? <==> delivered >= |rs|)
            && (r.Ok? ==> r.value == id)
            && (r.Err? ==> r == Err(ServerError)))
  {
    var rs := NonAdmins(db.users, Lists.Distinct(AssigneeList(assignedTo)));
    var doc := BuildAdminTask(db.projects, actor, title, description, dueDate, priority, projectId,
                              assignedTo, files, now);
    if doc.Err? {
      return Err(doc.status);
    }
    assert doc.value.assignedTo == AssigneeList(assignedTo);
    r := SaveProjectTask(db, doc.value, rs, projectId, now, delivered);
  }
}
