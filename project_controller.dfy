/** The project handlers. Every project route sits behind the
    authentication middleware and `requireRole("admin")`, so the acting
    user is a stored admin.

    A membership change ends with the unassign sweep over the project's
    tasks and, for members not there before, one welcome task each. The
    welcome tasks go in with one `insertMany` whose failure is swallowed;
    `inserted` says how many of them are written before it fails.
    deleteProject first removes, best effort, the files attached to the
    progress reports of the project's tasks, then deletes the tasks, the
    notifications and the project in one transaction; `committed` says
    whether that transaction commits. */
module ProjectController {
  import opened Base
  import Text
  import Lists
  import Ordering
  import Files
  import opened ProjectModel
  import TaskModel
  import NotificationModel
  import Database
  import TaskController

  /** A `members` request field: `None` when it is not an array, and a
      falsy entry of the array is `None` too. */
  type MembersInput = Option<seq<Option<UserId>>>

  /** `Array.isArray(members) ? members.filter(Boolean) : []`. */
  function MemberList(members: MembersInput): seq<UserId> {
    if members.None? then [] else Lists.Compact(members.value)
  }

  /** The member list keeps exactly the present ids of an array. */
  lemma MemberListContents(members: MembersInput)
    ensures members.None? ==> MemberList(members) == []
    ensures members.Some? ==> forall u :: u in MemberList(members) <==> Some(u) in members.value
  {
    if members.Some? {
      Lists.CompactContents(members.value);
    }
  }

  // ---------------------------------------------------------------------
  // Welcome tasks

  const WelcomePrefix: string := "Bienvenue sur le projet "

  /** The welcome task of one member: a "todo" of the project, owned by the
      admin, assigned to that member alone, titled after the project. */
  function WelcomeTask(actor: UserId, projectName: string, description: string, projectId: ProjectId,
                       member: UserId, now: Timestamp): TaskModel.Task
  {
    TaskModel.Blank(WelcomePrefix + projectName, actor, now).(
      description := description, assignedTo := [member], projectId := Some(projectId))
  }

  /** One welcome task per entry of `members`, in order. */
  function WelcomeTasks(actor: UserId, projectName: string, description: string, projectId: ProjectId,
                        members: seq<UserId>, now: Timestamp): (r: seq<TaskModel.Task>)
    ensures |r| == |members|
  {
    seq(|members|, i requires 0 <= i < |members| =>
          WelcomeTask(actor, projectName, description, projectId, members[i], now))
  }

  /** The i-th welcome task is a valid fresh "todo" of the project, pending,
      at progress 0 and medium priority, owned by the admin and assigned to
      the i-th member only. */
  lemma WelcomeTasksContents(actor: UserId, projectName: string, description: string, projectId: ProjectId,
                             members: seq<UserId>, now: Timestamp)
    ensures var ws := WelcomeTasks(actor, projectName, description, projectId, members, now);
      forall i :: 0 <= i < |ws| ==>
        && TaskModel.Conforms(ws[i])
        && ws[i].assignedTo == [members[i]] && ws[i].projectId == Some(projectId)
        && ws[i].userId == actor && ws[i].title == WelcomePrefix + projectName
        && ws[i].description == description
        && ws[i].status == TaskModel.Todo && ws[i].participationStatus == TaskModel.Pending
        && ws[i].progress == 0 && !ws[i].completed && ws[i].priority == TaskModel.Medium
        && ws[i].progressReports == [] && ws[i].participationLogs == []
  {
  }

  /** `Task.insertMany` of the welcome tasks, of which the first `inserted`
      are written. */
  method InsertWelcome(db: Database.Store, actor: UserId, projectName: string, description: string,
                       projectId: ProjectId, members: seq<UserId>, now: Timestamp, inserted: nat)
    requires db.Valid()
    modifies db`tasks, db`nextId
    ensures db.Valid()
    ensures db.tasks == Database.Inserted(old(db.tasks), old(db.nextId),
                          Prefix(WelcomeTasks(actor, projectName, description, projectId, members, now), inserted))
  {
    var ws := WelcomeTasks(actor, projectName, description, projectId, members, now);
    WelcomeTasksContents(actor, projectName, description, projectId, members, now);
    db.InsertTasks(Prefix(ws, inserted));
  }

  // ---------------------------------------------------------------------
  // The unassign sweep

  /** The sweep's filter `{projectId: id, assignedTo: {$nin: members}}`: a
      task of the project none of whose assignees is a member. A task with
      no assignees matches as well. */
  predicate Unassigned(t: TaskModel.Task, projectId: ProjectId, members: seq<UserId>) {
    t.projectId == Some(projectId) && forall u :: u in t.assignedTo ==> u !in members
  }

  /** The tasks after `$unset: {assignedTo: ""}` on every matching task. */
  function Swept(tasks: map<TaskId, TaskModel.Task>, projectId: ProjectId, members: seq<UserId>)
    : map<TaskId, TaskModel.Task>
  {
    map k | k in tasks :: if Unassigned(tasks[k], projectId, members) then tasks[k].(assignedTo := []) else tasks[k]
  }

  /** The sweep deletes no task and changes nothing but assignees; tasks of
      other projects, and tasks with an assignee who is still a member, keep
      theirs; afterwards every task of the project has no assignee or one
      who is a member; and every task stays valid. */
  lemma SweptEffect(tasks: map<TaskId, TaskModel.Task>, projectId: ProjectId, members: seq<UserId>)
    ensures var r := Swept(tasks, projectId, members);
      && r.Keys == tasks.Keys
      && (forall k :: k in tasks ==> r[k].(assignedTo := tasks[k].assignedTo) == tasks[k])
      && (forall k :: k in tasks && tasks[k].projectId != Some(projectId) ==> r[k] == tasks[k])
      && (forall k :: k in tasks && (exists u :: u in tasks[k].assignedTo && u in members) ==> r[k] == tasks[k])
      && (forall k :: k in r && r[k].projectId == Some(projectId) ==>
            r[k].assignedTo == [] || exists u :: u in r[k].assignedTo && u in members)
      && (Database.TasksValid(tasks) ==> Database.TasksValid(r))
  {
    var r := Swept(tasks, projectId, members);
    forall k | k in r && r[k].projectId == Some(projectId)
      ensures r[k].assignedTo == [] || exists u :: u in r[k].assignedTo && u in members
    {
      if !Unassigned(tasks[k], projectId, members) {
        var u :| u in tasks[k].assignedTo && u in members;
        assert u in r[k].assignedTo;
      }
    }
  }

  /** Sweeping twice with the same members is sweeping once. */
  lemma SweptIdempotent(tasks: map<TaskId, TaskModel.Task>, projectId: ProjectId, members: seq<UserId>)
    ensures Swept(Swept(tasks, projectId, members), projectId, members) == Swept(tasks, projectId, members)
  {
  }

  /** `Task.updateMany` of the sweep. */
  method Sweep(db: Database.Store, projectId: ProjectId, members: seq<UserId>)
    requires db.Valid()
    modifies db`tasks
    ensures db.Valid()
    ensures db.tasks == Swept(old(db.tasks), projectId, members)
  {
    SweptEffect(db.tasks, projectId, members);
    db.UpdateTasks(Swept(db.tasks, projectId, members));
  }

  // ---------------------------------------------------------------------
  // createProject

  /** `maxMembers && ...`: a capacity the request gives, that is a number
      other than 0. */
  predicate GivesCapacity(maxMembers: Option<int>) {
    maxMembers.Some? && maxMembers.value != 0
  }

  /** The error createProject answers, if any: 400 for a missing or blank
      name, and 400 when a given capacity is smaller than the member list. */
  function CreateRefusal(name: Option<string>, members: MembersInput, maxMembers: Option<int>): Option<Status> {
    if name.None? || Text.IsBlank(name.value) then Some(BadRequest)
    else if GivesCapacity(maxMembers) && |MemberList(members)| > maxMembers.value then Some(BadRequest)
    else None
  }

  /** The project createProject stores when it refuses nothing. */
  function NewProject(actor: UserId, name: Option<string>, description: Option<string>, members: MembersInput,
                      maxMembers: Option<int>, startDate: Option<Timestamp>, endDate: Option<Timestamp>,
                      now: Timestamp): Project
  {
    Project(Text.Trim(name.GetOr("")),
            if description.Some? then Text.Trim(description.value) else "",
            actor, MemberList(members),
            if GivesCapacity(maxMembers) then maxMembers.value else DefaultMaxMembers,
            startDate, endDate, now)
  }

  /** createProject refuses exactly a missing or blank name and a member
      list longer than a given capacity; a created project passes its
      schema, is within a capacity the request gives, holds the trimmed name, the present
      member ids and the given capacity or 10, and is owned by the admin. */
  lemma CreateOutcome(actor: UserId, name: Option<string>, description: Option<string>, members: MembersInput,
                      maxMembers: Option<int>, startDate: Option<Timestamp>, endDate: Option<Timestamp>,
                      now: Timestamp)
    ensures CreateRefusal(name, members, maxMembers).Some? <==>
              || name.None? || Text.IsBlank(name.value)
              || (GivesCapacity(maxMembers) && |MemberList(members)| > maxMembers.value)
    ensures CreateRefusal(name, members, maxMembers).Some? ==> CreateRefusal(name, members, maxMembers) == Some(BadRequest)
    ensures CreateRefusal(name, members, maxMembers).None? ==>
      var p := NewProject(actor, name, description, members, maxMembers, startDate, endDate, now);
      && Conforms(p) && (GivesCapacity(maxMembers) ==> WithinCapacity(p))
      && p.name == Text.Trim(name.value) && p.ownerId == actor && p.members == MemberList(members)
      && p.maxMembers == (if GivesCapacity(maxMembers) then maxMembers.value else DefaultMaxMembers)
      && (members.Some? ==> forall u :: u in p.members <==> Some(u) in members.value)
  {
    MemberListContents(members);
  }

  /** Without a capacity in the request, the member count is not checked
      against the default of 10. */
  lemma DefaultCapacityNotChecked(actor: UserId, now: Timestamp)
    ensures var members := Some(seq(11, i => Some(i)));
      && CreateRefusal(Some("p"), members, None).None?
      && !WithinCapacity(NewProject(actor, Some("p"), None, members, None, None, None, now))
  {
    var members := Some(seq(11, i => Some(i)));
    assert |MemberList(members)| == 11 by {
      Lists.CompactAllPresent(members.value);
    }
    assert Text.Trim("p") == "p" by {
      Text.TrimOfTrimmed("p");
    }
  }

  /** The checks and the document of createProject, before the create. */
  method BuildProject(actor: UserId, name: Option<string>, description: Option<string>, members: MembersInput,
                      maxMembers: Option<int>, startDate: Option<Timestamp>, endDate: Option<Timestamp>,
                      now: Timestamp)
    returns (r: Result<Project>)
    ensures var refusal := CreateRefusal(name, members, maxMembers);
      && (r.Err? <==> refusal.Some?)
      && (r.Err? ==> r.status == refusal.value)
      && (r.Ok? ==> r.value == NewProject(actor, name, description, members, maxMembers, startDate, endDate, now)
                    && Conforms(r.value))
  {
    if name.None? || Text.IsBlank(name.value) {
      return Err(BadRequest);
    }
    var normalized := MemberList(members);
    if GivesCapacity(maxMembers) && |normalized| > maxMembers.value {
      return Err(BadRequest);
    }
    var p := Project(Text.Trim(name.value),
                     if description.Some? then Text.Trim(description.value) else "",
                     actor, normalized,
                     if GivesCapacity(maxMembers) then maxMembers.value else DefaultMaxMembers,
                     startDate, endDate, now);
    CreateOutcome(actor, name, description, members, maxMembers, startDate, endDate, now);
    return Ok(p);
  }

  /** `Project.create`, then the welcome tasks of its members. */
  method SaveNewProject(db: Database.Store, actor: UserId, p: Project, now: Timestamp, inserted: nat)
    returns (r: Result<ProjectId>)
    requires db.Valid() && Conforms(p)
    modifies db`projects, db`tasks, db`nextId
    ensures db.Valid()
    ensures var id := old(db.nextId);
      && r == Ok(id) && id !in old(db.projects)
      && db.projects == old(db.projects)[id := p]
      && db.tasks == Database.Inserted(old(db.tasks), id + 1,
           Prefix(WelcomeTasks(actor, p.name, p.description, id, p.members, now), inserted))
  {
    var id := db.InsertProject(p);
    if |p.members| > 0 {
      InsertWelcome(db, actor, p.name, p.description, id, p.members, now, inserted);
    }
    return Ok(id);
  }

  /** createProject. The welcome tasks follow the project's creation. */
  method CreateProject(db: Database.Store, actor: UserId, name: Option<string>, description: Option<string>,
                       members: MembersInput, maxMembers: Option<int>,
                       startDate: Option<Timestamp>, endDate: Option<Timestamp>, now: Timestamp, inserted: nat)
    returns (r: Result<ProjectId>)
    requires db.Valid() && TaskController.IsAdmin(db.users, actor)
    modifies db`projects, db`tasks, db`nextId
    ensures db.Valid()
    ensures var refusal := CreateRefusal(name, members, maxMembers);
      && (refusal.Some? ==>
            r == Err(refusal.value) && db.projects == old(db.projects) && db.tasks == old(db.tasks))
      && (refusal.None? ==>
            && var id := old(db.nextId);
            && var p := NewProject(actor, name, description, members, maxMembers, startDate, endDate, now);
            && r == Ok(id) && id !in old(db.projects)
            && db.projects == old(db.projects)[id := p]
            && db.tasks == Database.Inserted(old(db.tasks), id + 1,
                 Prefix(WelcomeTasks(actor, p.name, p.description, id, p.members, now), inserted)))
  {
    var doc := BuildProject(actor, name, description, members, maxMembers, startDate, endDate, now);
    if doc.Err? {
      return Err(doc.status);
    }
    ghost var p := NewProject(actor, name, description, members, maxMembers, startDate, endDate, now);
    assert doc.value == p;
    r := SaveNewProject(db, actor, doc.value, now, inserted);
    assert db.tasks == Database.Inserted(old(db.tasks), old(db.nextId) + 1,
             Prefix(WelcomeTasks(actor, p.name, p.description, old(db.nextId), p.members, now), inserted));
  }

  /** Each member of a new project gets exactly one welcome task: the
      `i`-th task inserted after the project is the welcome task of the
      `i`-th member. */
  lemma CreateWelcomes(tasks: map<TaskId, TaskModel.Task>, id: ProjectId, actor: UserId, p: Project,
                       now: Timestamp, inserted: nat)
    requires inserted >= |p.members|
    ensures var ws := WelcomeTasks(actor, p.name, p.description, id, p.members, now);
      var r := Database.Inserted(tasks, id + 1, Prefix(ws, inserted));
      forall i :: 0 <= i < |p.members| ==>
        id + 1 + i in r && r[id + 1 + i].assignedTo == [p.members[i]] && r[id + 1 + i].projectId == Some(id)
  {
    var ws := WelcomeTasks(actor, p.name, p.description, id, p.members, now);
    assert Prefix(ws, inserted) == ws;
    Database.InsertedContents(tasks, id + 1, ws);
    WelcomeTasksContents(actor, p.name, p.description, id, p.members, now);
  }

  // ---------------------------------------------------------------------
  // updateProjectMembers

  /** `typeof maxMembers === 'number' ? maxMembers : project.maxMembers`. */
  function Capacity(p: Project, maxMembers: Option<int>): int {
    if maxMembers.Some? then maxMembers.value else p.maxMembers
  }

  /** The error updateProjectMembers answers, if any: 404 for an unknown
      project, 400 for a member list longer than the capacity, and 500 when
      the save rejects a capacity below 1. */
  function MembersRefusal(projects: map<ProjectId, Project>, id: ProjectId, members: MembersInput,
                          maxMembers: Option<int>): Option<Status>
  {
    if id !in projects then Some(NotFound)
    else if |MemberList(members)| > Capacity(projects[id], maxMembers) then Some(BadRequest)
    else if Capacity(projects[id], maxMembers) < MinMaxMembers then Some(ServerError)
    else None
  }

  /** The project after the membership update. */
  function WithMembers(p: Project, members: MembersInput, maxMembers: Option<int>): Project {
    p.(members := MemberList(members), maxMembers := Capacity(p, maxMembers))
  }

  /** A saved membership update keeps the project valid and within its
      capacity, which is the given number or the old capacity; the 500 of
      the save happens only for an empty list and a capacity of 0. */
  lemma MembersOutcome(projects: map<ProjectId, Project>, id: ProjectId, members: MembersInput,
                       maxMembers: Option<int>)
    requires Database.ProjectsValid(projects)
    ensures MembersRefusal(projects, id, members, maxMembers) == Some(NotFound) <==> id !in projects
    ensures MembersRefusal(projects, id, members, maxMembers) == Some(BadRequest) <==>
              id in projects && |MemberList(members)| > Capacity(projects[id], maxMembers)
    ensures MembersRefusal(projects, id, members, maxMembers) == Some(ServerError) ==>
              MemberList(members) == [] && maxMembers == Some(0)
    ensures MembersRefusal(projects, id, members, maxMembers).None? ==>
      var q := WithMembers(projects[id], members, maxMembers);
      && Conforms(q) && WithinCapacity(q)
      && q.name == projects[id].name && q.description == projects[id].description
      && q.members == MemberList(members)
      && q.maxMembers == (if maxMembers.Some? then maxMembers.value else projects[id].maxMembers)
  {
  }

  /** updateProjectMembers. After the save come the sweep against the new
      members and the welcome tasks of the members not there before. */
  method UpdateProjectMembers(db: Database.Store, actor: UserId, id: ProjectId, members: MembersInput,
                              maxMembers: Option<int>, now: Timestamp, inserted: nat)
    returns (r: Result<Project>)
    requires db.Valid() && TaskController.IsAdmin(db.users, actor)
    modifies db`projects, db`tasks, db`nextId
    ensures db.Valid()
    ensures var refusal := MembersRefusal(old(db.projects), id, members, maxMembers);
      && (refusal.Some? ==>
            r == Err(refusal.value) && db.projects == old(db.projects) && db.tasks == old(db.tasks))
      && (refusal.None? ==>
            && var p := old(db.projects)[id];
            && var q := WithMembers(p, members, maxMembers);
            && r == Ok(q) && db.projects == old(db.projects)[id := q]
            && db.tasks == Database.Inserted(Swept(old(db.tasks), id, q.members), old(db.nextId),
                 Prefix(WelcomeTasks(actor, q.name, q.description, id, Lists.NotIn(q.members, p.members), now),
                        inserted)))
  {
    if id !in db.projects {
      return Err(NotFound);
    }
    var p := db.projects[id];
    var normalized := MemberList(members);
    var capacity := Capacity(p, maxMembers);
    if |normalized| > capacity {
      return Err(BadRequest);
    }

    var previous := p.members;
    p := p.(members := normalized);
    p := p.(maxMembers := capacity);
    // Save-time validation of `min: 1`.
    if p.maxMembers < MinMaxMembers {
      return Err(ServerError);
    }
    db.SaveProject(id, p);

    Sweep(db, id, p.members);
    var added := Lists.NotIn(normalized, previous);
    if |added| > 0 {
      InsertWelcome(db, actor, p.name, p.description, id, added, now, inserted);
    }
    return Ok(p);
  }

  /** The welcome tasks of a membership update go exactly to the members
      not there before, one per occurrence in the new list. */
  lemma WelcomesOnlyNew(actor: UserId, p: Project, q: Project, id: ProjectId, now: Timestamp)
    ensures var ws := WelcomeTasks(actor, q.name, q.description, id, Lists.NotIn(q.members, p.members), now);
      && (forall i :: 0 <= i < |ws| ==> ws[i].assignedTo[0] in q.members && ws[i].assignedTo[0] !in p.members)
      && (forall u :: u in q.members && u !in p.members ==> exists i :: 0 <= i < |ws| && ws[i].assignedTo == [u])
  {
    var added := Lists.NotIn(q.members, p.members);
    var ws := WelcomeTasks(actor, q.name, q.description, id, added, now);
    WelcomeTasksContents(actor, q.name, q.description, id, added, now);
    forall u | u in q.members && u !in p.members
      ensures exists i :: 0 <= i < |ws| && ws[i].assignedTo == [u]
    {
      var i :| 0 <= i < |added| && added[i] == u;
      assert ws[i].assignedTo == [u];
    }
  }

  // ---------------------------------------------------------------------
  // updateProject

  /** Name, description and capacity after updateProject: a name is taken
      when it trims to something, a description is trimmed, a capacity is
      taken when it is a number of at least 1. */
  function Revised(p: Project, name: Option<string>, description: Option<string>, maxMembers: Option<int>): Project {
    p.(name := if name.Some? && !Text.IsBlank(name.value) then Text.Trim(name.value) else p.name,
       description := if description.Some? then Text.Trim(description.value) else p.description,
       maxMembers := if maxMembers.Some? && maxMembers.value >= MinMaxMembers then maxMembers.value else p.maxMembers)
  }

  /** The project updateProject saves: the revision, with the present ids of
      a given member list. */
  function Updated(p: Project, name: Option<string>, description: Option<string>, members: MembersInput,
                   maxMembers: Option<int>): Project
  {
    var q := Revised(p, name, description, maxMembers);
    if members.Some? then q.(members := MemberList(members)) else q
  }

  /** The error updateProject answers, if any: 404 for an unknown project,
      400 for a given member list longer than the revised capacity. */
  function UpdateRefusal(projects: map<ProjectId, Project>, id: ProjectId, name: Option<string>,
                         description: Option<string>, members: MembersInput, maxMembers: Option<int>)
    : Option<Status>
  {
    if id !in projects then Some(NotFound)
    else if members.Some? && |MemberList(members)| > Revised(projects[id], name, description, maxMembers).maxMembers
    then Some(BadRequest)
    else None
  }

  /** An update keeps a valid project valid: the name is the new one,
      trimmed, when it trims to something and the old one otherwise; the
      capacity is a given number of at least 1 or the old one; the members
      are a given list, within the capacity, or the old ones. */
  lemma UpdateOutcome(p: Project, name: Option<string>, description: Option<string>, members: MembersInput,
                      maxMembers: Option<int>)
    requires Conforms(p)
    ensures var q := Updated(p, name, description, members, maxMembers);
      && Conforms(q) && q.ownerId == p.ownerId && q.createdAt == p.createdAt
      && (name.Some? && !Text.IsBlank(name.value) ==> q.name == Text.Trim(name.value))
      && (name.None? || Text.IsBlank(name.value) ==> q.name == p.name)
      && (maxMembers.Some? && maxMembers.value >= 1 ==> q.maxMembers == maxMembers.value)
      && (maxMembers.None? || maxMembers.value < 1 ==> q.maxMembers == p.maxMembers)
      && (members.None? ==> q.members == p.members)
      && (members.Some? && |MemberList(members)| <= q.maxMembers ==> q.members == MemberList(members) && WithinCapacity(q))
  {
  }

  /** Without a member list, updateProject may lower the capacity below the
      member count: the capacity is only checked against a list that is
      sent. */
  lemma CapacityNotRechecked()
    ensures var p := Project("p", "", 0, [1, 2, 3], 10, None, None, 0);
      && Conforms(p) && WithinCapacity(p)
      && UpdateRefusal(map[7 := p], 7, None, None, None, Some(2)).None?
      && !WithinCapacity(Updated(p, None, None, None, Some(2)))
  {
    var p := Project("p", "", 0, [1, 2, 3], 10, None, None, 0);
    assert Text.Trimmed("p");
  }

  /** The field assignments of updateProject on the loaded project, and
      the capacity check of a given member list. */
  method EditProject(p0: Project, name: Option<string>, description: Option<string>, members: MembersInput,
                     maxMembers: Option<int>)
    returns (r: Result<Project>)
    ensures (r.Err? <==> members.Some? && |MemberList(members)| > Revised(p0, name, description, maxMembers).maxMembers)
    ensures r.Err? ==> r.status == BadRequest
    ensures r.Ok? ==> r.value == Updated(p0, name, description, members, maxMembers)
  {
    var p := p0;
    if name.Some? {
      var trimmed := Text.Trim(name.value);
      p := p.(name := if trimmed != "" then trimmed else p.name);
    }
    if description.Some? {
      p := p.(description := Text.Trim(description.value));
    }
    if maxMembers.Some? && maxMembers.value >= MinMaxMembers {
      p := p.(maxMembers := maxMembers.value);
    }
    assert p == Revised(p0, name, description, maxMembers);
    if members.Some? {
      var normalized := MemberList(members);
      if |normalized| > p.maxMembers {
        return Err(BadRequest);
      }
      p := p.(members := normalized);
    }
    return Ok(p);
  }

  /** updateProject. After the save comes the sweep against the project's
      members, whether or not they changed. */
  method UpdateProject(db: Database.Store, actor: UserId, id: ProjectId, name: Option<string>,
                       description: Option<string>, members: MembersInput, maxMembers: Option<int>)
    returns (r: Result<Project>)
    requires db.Valid() && TaskController.IsAdmin(db.users, actor)
    modifies db`projects, db`tasks
    ensures db.Valid()
    ensures var refusal := UpdateRefusal(old(db.projects), id, name, description, members, maxMembers);
      && (refusal.Some? ==>
            r == Err(refusal.value) && db.projects == old(db.projects) && db.tasks == old(db.tasks))
      && (refusal.None? ==>
            && var q := Updated(old(db.projects)[id], name, description, members, maxMembers);
            && r == Ok(q) && db.projects == old(db.projects)[id := q]
            && db.tasks == Swept(old(db.tasks), id, q.members))
  {
    if id !in db.projects {
      return Err(NotFound);
    }
    var p0 := db.projects[id];
    var p := EditProject(p0, name, description, members, maxMembers);
    if p.Err? {
      return Err(p.status);
    }
    UpdateOutcome(p0, name, description, members, maxMembers);
    db.SaveProject(id, p.value);
    Sweep(db, id, p.value.members);
    return Ok(p.value);
  }

  // ---------------------------------------------------------------------
  // deleteProject

  /** The file an attachment URL names, if it names one: `a?.url || ""`,
      skipped when empty, with the leading slash dropped. */
  function UrlPath(url: string): set<string> {
    if url == "" then {} else {Files.RelativePath(url)}
  }

  function AttachmentPaths(atts: seq<TaskModel.Attachment>): set<string>
    decreases |atts|
  {
    if atts == [] then {} else AttachmentPaths(atts[..|atts| - 1]) + UrlPath(atts[|atts| - 1].url)
  }

  function ReportPaths(reports: seq<TaskModel.ProgressReport>): set<string>
    decreases |reports|
  {
    if reports == [] then {}
    else ReportPaths(reports[..|reports| - 1]) + AttachmentPaths(reports[|reports| - 1].attachments)
  }

  /** Every file named by an attachment of a progress report of one of `ts`. */
  function TaskPaths(ts: seq<TaskModel.Task>): set<string>
    decreases |ts|
  {
    if ts == [] then {} else TaskPaths(ts[..|ts| - 1]) + ReportPaths(ts[|ts| - 1].progressReports)
  }

  /** The attachment paths are the files of the non-empty URLs. */
  lemma {:induction false} AttachmentPathsContents(atts: seq<TaskModel.Attachment>)
    ensures forall f :: f in AttachmentPaths(atts) <==>
      exists k :: 0 <= k < |atts| && atts[k].url != "" && f == Files.RelativePath(atts[k].url)
    decreases |atts|
  {
    if atts != [] {
      var front := atts[..|atts| - 1];
      AttachmentPathsContents(front);
      assert forall k :: 0 <= k < |front| ==> front[k] == atts[k];
    }
  }

  lemma {:induction false} ReportPathsContents(reports: seq<TaskModel.ProgressReport>)
    ensures forall f :: f in ReportPaths(reports) <==>
      exists j :: 0 <= j < |reports| && f in AttachmentPaths(reports[j].attachments)
    decreases |reports|
  {
    if reports != [] {
      ReportPathsContents(reports[..|reports| - 1]);
      forall f
        ensures f in ReportPaths(reports) <==>
          exists j :: 0 <= j < |reports| && f in AttachmentPaths(reports[j].attachments)
      {
        ReportPathsStep(reports, f);
      }
    }
  }

  /** One file, one more report: the induction step of ReportPathsContents. */
  lemma ReportPathsStep(reports: seq<TaskModel.ProgressReport>, f: string)
    requires reports != []
    requires var front := reports[..|reports| - 1];
      f in ReportPaths(front) <==> exists j :: 0 <= j < |front| && f in AttachmentPaths(front[j].attachments)
    ensures f in ReportPaths(reports) <==>
      exists j :: 0 <= j < |reports| && f in AttachmentPaths(reports[j].attachments)
  {
    var front := reports[..|reports| - 1];
    var n := |reports| - 1;
    if f in ReportPaths(front) {
      var j :| 0 <= j < |front| && f in AttachmentPaths(front[j].attachments);
      assert front[j] == reports[j];
    }
    if exists j :: 0 <= j < |reports| && f in AttachmentPaths(reports[j].attachments) {
      var j :| 0 <= j < |reports| && f in AttachmentPaths(reports[j].attachments);
      if j < n {
        assert front[j] == reports[j];
      }
    }
  }

  lemma {:induction false} TaskPathsContents(ts: seq<TaskModel.Task>)
    ensures forall f :: f in TaskPaths(ts) <==>
      exists i :: 0 <= i < |ts| && f in ReportPaths(ts[i].progressReports)
    decreases |ts|
  {
    if ts != [] {
      TaskPathsContents(ts[..|ts| - 1]);
      forall f
        ensures f in TaskPaths(ts) <==> exists i :: 0 <= i < |ts| && f in ReportPaths(ts[i].progressReports)
      {
        TaskPathsStep(ts, f);
      }
    }
  }

  /** One file, one more task: the induction step of TaskPathsContents. */
  lemma TaskPathsStep(ts: seq<TaskModel.Task>, f: string)
    requires ts != []
    requires var front := ts[..|ts| - 1];
      f in TaskPaths(front) <==> exists i :: 0 <= i < |front| && f in ReportPaths(front[i].progressReports)
    ensures f in TaskPaths(ts) <==> exists i :: 0 <= i < |ts| && f in ReportPaths(ts[i].progressReports)
  {
    var front := ts[..|ts| - 1];
    var n := |ts| - 1;
    if f in TaskPaths(front) {
      var i :| 0 <= i < |front| && f in ReportPaths(front[i].progressReports);
      assert front[i] == ts[i];
    }
    if exists i :: 0 <= i < |ts| && f in ReportPaths(ts[i].progressReports) {
      var i :| 0 <= i < |ts| && f in ReportPaths(ts[i].progressReports);
      if i < n {
        assert front[i] == ts[i];
      }
    }
  }

  /** The ids of the project's tasks, as `Task.find({projectId})` selects
      them. */
  function ProjectTaskIds(tasks: map<TaskId, TaskModel.Task>, id: ProjectId): set<TaskId> {
    set k | k in tasks && tasks[k].projectId == Some(id)
  }

  /** The ids of the notifications filed under the project (`data.projectId`). */
  function ProjectNotificationIds(notifications: map<NotificationId, NotificationModel.Notification>,
                                  id: ProjectId): set<NotificationId>
  {
    set k | k in notifications && notifications[k].data.projectId == Some(id)
  }

  /** The project's tasks, in id order. */
  function ProjectTasks(tasks: map<TaskId, TaskModel.Task>, id: ProjectId, bound: nat): (r: seq<TaskModel.Task>)
  {
    var ids := Ordering.Ascending(ProjectTaskIds(tasks, id), bound);
    Ordering.AscendingContents(ProjectTaskIds(tasks, id), bound);
    seq(|ids|, i requires 0 <= i < |ids| =>
          assert ids[i] in ids && ids[i] in ProjectTaskIds(tasks, id); tasks[ids[i]])
  }

  /** With every id below `bound`, the list holds exactly the project's
      tasks. */
  lemma ProjectTasksContents(tasks: map<TaskId, TaskModel.Task>, id: ProjectId, bound: nat)
    requires Database.Below(tasks, bound)
    ensures var ts := ProjectTasks(tasks, id, bound);
      && (forall i :: 0 <= i < |ts| ==> ts[i].projectId == Some(id))
      && (forall k :: k in tasks && tasks[k].projectId == Some(id) ==> exists i :: 0 <= i < |ts| && ts[i] == tasks[k])
  {
    var ids := Ordering.Ascending(ProjectTaskIds(tasks, id), bound);
    Ordering.AscendingContents(ProjectTaskIds(tasks, id), bound);
    var ts := ProjectTasks(tasks, id, bound);
    forall i | 0 <= i < |ts|
      ensures ts[i].projectId == Some(id)
    {
      assert ids[i] in ids && ids[i] in ProjectTaskIds(tasks, id);
    }
    forall k | k in tasks && tasks[k].projectId == Some(id)
      ensures exists i :: 0 <= i < |ts| && ts[i] == tasks[k]
    {
      assert k in ProjectTaskIds(tasks, id);
      var i :| 0 <= i < |ids| && ids[i] == k;
      assert ts[i] == tasks[k];
    }
  }

  /** The files of one report's attachments, each removed if it can be. */
  method RemoveAttachmentFiles(disk: Files.Disk, atts: seq<TaskModel.Attachment>)
    modifies disk`files
    ensures disk.files == old(disk.files) - (AttachmentPaths(atts) - disk.locked)
  {
    var k := 0;
    while k < |atts|
      invariant 0 <= k <= |atts|
      invariant disk.files == old(disk.files) - (AttachmentPaths(atts[..k]) - disk.locked)
    {
      var url := atts[k].url;
      if url != "" {
        disk.Unlink(Files.RelativePath(url));
      }
      assert atts[..k + 1][..k] == atts[..k];
      k := k + 1;
    }
    assert atts[..k] == atts;
  }

  /** deleteProject's file cleanup: for every task, every report and every
      attachment with a URL, the named file is removed if it can be. */
  method RemoveReportFiles(disk: Files.Disk, ts: seq<TaskModel.Task>)
    modifies disk`files
    ensures disk.files == old(disk.files) - (TaskPaths(ts) - disk.locked)
  {
    var i := 0;
    while i < |ts|
      invariant 0 <= i <= |ts|
      invariant disk.files == old(disk.files) - (TaskPaths(ts[..i]) - disk.locked)
    {
      var reports := ts[i].progressReports;
      var j := 0;
      while j < |reports|
        invariant 0 <= j <= |reports|
        invariant disk.files == old(disk.files) - (TaskPaths(ts[..i]) + ReportPaths(reports[..j]) - disk.locked)
      {
        RemoveAttachmentFiles(disk, reports[j].attachments);
        assert reports[..j + 1][..j] == reports[..j];
        j := j + 1;
      }
      assert reports[..j] == reports;
      assert ts[..i + 1][..i] == ts[..i];
      i := i + 1;
    }
    assert ts[..i] == ts;
  }

  /** The counts deleteProject answers with. */
  datatype DeletedCounts = DeletedCounts(tasks: nat, notifications: nat)

  /** The database phase of deleteProject, one transaction: the project's
      tasks, its notifications and the project go together. */
  method DeleteCascade(db: Database.Store, id: ProjectId) returns (counts: DeletedCounts)
    requires db.Valid()
    modifies db`tasks, db`notifications, db`projects
    ensures db.Valid()
    ensures db.tasks == Database.Deleted(old(db.tasks), ProjectTaskIds(old(db.tasks), id))
    ensures db.notifications == Database.Deleted(old(db.notifications), ProjectNotificationIds(old(db.notifications), id))
    ensures db.projects == old(db.projects) - {id}
    ensures counts.tasks + |db.tasks| == |old(db.tasks)|
    ensures counts.notifications + |db.notifications| == |old(db.notifications)|
  {
    var doomedTasks := ProjectTaskIds(db.tasks, id);
    var doomedNotifications := ProjectNotificationIds(db.notifications, id);
    Database.DeletedCount(db.tasks, doomedTasks);
    Database.DeletedCount(db.notifications, doomedNotifications);
    db.RemoveTasks(doomedTasks);
    var deletedTasks := |doomedTasks|;
    db.RemoveNotifications(doomedNotifications);
    var deletedNotifications := |doomedNotifications|;
    db.RemoveProject(id);
    return DeletedCounts(deletedTasks, deletedNotifications);
  }

  /** After the cascade no task and no notification refers to the project,
      and every other task and notification is still there, unchanged. */
  lemma CascadeEffect(tasks: map<TaskId, TaskModel.Task>,
                      notifications: map<NotificationId, NotificationModel.Notification>, id: ProjectId)
    ensures var ts := Database.Deleted(tasks, ProjectTaskIds(tasks, id));
      && (forall k :: k in ts ==> ts[k].projectId != Some(id))
      && (forall k :: k in tasks && tasks[k].projectId != Some(id) ==> k in ts && ts[k] == tasks[k])
    ensures var ns := Database.Deleted(notifications, ProjectNotificationIds(notifications, id));
      && (forall k :: k in ns ==> ns[k].data.projectId != Some(id))
      && (forall k :: k in notifications && notifications[k].data.projectId != Some(id) ==>
            k in ns && ns[k] == notifications[k])
  {
  }

  /** deleteProject. The file cleanup comes first and never stops the
      database phase; a transaction that does not commit answers 500 after
      the files are gone. */
  method DeleteProject(db: Database.Store, disk: Files.Disk, actor: UserId, id: ProjectId, committed: bool)
    returns (r: Result<DeletedCounts>)
    requires db.Valid() && TaskController.IsAdmin(db.users, actor)
    modifies db`tasks, db`notifications, db`projects, disk`files
    ensures db.Valid()
    ensures id !in old(db.projects) ==>
      && r == Err(NotFound) && disk.files == old(disk.files)
      && db.tasks == old(db.tasks) && db.notifications == old(db.notifications) && db.projects == old(db.projects)
    ensures id in old(db.projects) ==>
      disk.files == old(disk.files) - (TaskPaths(ProjectTasks(old(db.tasks), id, old(db.nextId))) - disk.locked)
    ensures id in old(db.projects) && !committed ==>
      && r == Err(ServerError)
      && db.tasks == old(db.tasks) && db.notifications == old(db.notifications) && db.projects == old(db.projects)
    ensures id in old(db.projects) && committed ==>
      && r.Ok?
      && db.tasks == Database.Deleted(old(db.tasks), ProjectTaskIds(old(db.tasks), id))
      && db.notifications == Database.Deleted(old(db.notifications), ProjectNotificationIds(old(db.notifications), id))
      && db.projects == old(db.projects) - {id}
      && r.value.tasks == |ProjectTaskIds(old(db.tasks), id)|
      && r.value.notifications == |ProjectNotificationIds(old(db.notifications), id)|
  {
    if id !in db.projects {
      return Err(NotFound);
    }
    RemoveReportFiles(disk, ProjectTasks(db.tasks, id, db.nextId));
    if !committed {
      return Err(ServerError);
    }
    var counts := DeleteCascade(db, id);
    Database.DeletedCount(old(db.tasks), ProjectTaskIds(old(db.tasks), id));
    Database.DeletedCount(old(db.notifications), ProjectNotificationIds(old(db.notifications), id));
    return Ok(counts);
  }
}
