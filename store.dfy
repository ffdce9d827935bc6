/** The four collections as one in-memory store, with the id counter that
    stands for ObjectId generation. Handlers read documents out of the maps
    as values and write them back whole, which is what `doc.save()` does. */
module Database {
  import opened Base
  import TaskModel
  import ProjectModel
  import NotificationModel
  import UserModel

  predicate Below<V>(m: map<nat, V>, bound: nat) {
    forall k :: k in m ==> k < bound
  }

  /** The unique index on `email`. */
  predicate UniqueEmails(users: map<UserId, UserModel.User>) {
    forall a, b :: a in users && b in users && users[a].email == users[b].email ==> a == b
  }

  predicate EmailTaken(users: map<UserId, UserModel.User>, email: string) {
    exists u :: u in users && users[u].email == email
  }

  /** Each collection holds only documents that passed their schema. */
  predicate UsersValid(users: map<UserId, UserModel.User>) {
    (forall u {:trigger UserModel.Conforms(users[u])} :: u in users ==> UserModel.Conforms(users[u])) && UniqueEmails(users)
  }

  predicate ProjectsValid(projects: map<ProjectId, ProjectModel.Project>) {
    forall p :: p in projects ==> ProjectModel.Conforms(projects[p])
  }

  predicate TasksValid(tasks: map<TaskId, TaskModel.Task>) {
    forall t :: t in tasks ==> TaskModel.Conforms(tasks[t])
  }

  predicate NotificationsValid(notifications: map<NotificationId, NotificationModel.Notification>) {
    forall n :: n in notifications ==> NotificationModel.Conforms(notifications[n])
  }

  /** `m` with `vs[0], vs[1], ...` added under the consecutive keys
      `base, base + 1, ...`: what a sequence of inserts with fresh ids
      leaves behind. */
  function Inserted<V>(m: map<nat, V>, base: nat, vs: seq<V>): map<nat, V>
    decreases |vs|
  {
    if vs == [] then m
    else Inserted(m, base, vs[..|vs| - 1])[base + |vs| - 1 := vs[|vs| - 1]]
  }

  /** What the inserts leave: the old documents under their keys and `vs[i]`
      under `base + i`. */
  lemma {:induction false} InsertedContents<V>(m: map<nat, V>, base: nat, vs: seq<V>)
    ensures var r := Inserted(m, base, vs);
      && (forall k :: k in r <==> k in m || base <= k < base + |vs|)
      && (forall k :: base <= k < base + |vs| ==> r[k] == vs[k - base])
      && (forall k :: k in m && !(base <= k < base + |vs|) ==> r[k] == m[k])
    decreases |vs|
  {
    if vs != [] {
      InsertedContents(m, base, vs[..|vs| - 1]);
    }
  }

  /** Inserting under fresh keys adds exactly `|vs|` documents. */
  lemma {:induction false} InsertedSize<V>(m: map<nat, V>, base: nat, vs: seq<V>)
    requires Below(m, base)
    ensures |Inserted(m, base, vs)| == |m| + |vs|
    decreases |vs|
  {
    if vs != [] {
      var front := vs[..|vs| - 1];
      InsertedSize(m, base, front);
      InsertedContents(m, base, front);
      assert base + |vs| - 1 !in Inserted(m, base, front);
    }
  }

  /** `m` without the keys in `doomed`: a `deleteMany`. */
  function Deleted<V>(m: map<nat, V>, doomed: set<nat>): (r: map<nat, V>)
    ensures r.Keys == m.Keys - doomed
    ensures forall k :: k in r ==> r[k] == m[k]
  {
    map k | k in m && k !in doomed :: m[k]
  }

  /** The documents kept and the `deletedCount` add up to what was there. */
  lemma DeletedCount<V>(m: map<nat, V>, doomed: set<nat>)
    requires doomed <= m.Keys
    ensures |Deleted(m, doomed)| + |doomed| == |m|
  {
    var kept := Deleted(m, doomed).Keys;
    assert kept * doomed == {};
    assert m.Keys == kept + doomed;
  }

  class Store {
    var users: map<UserId, UserModel.User>
    var projects: map<ProjectId, ProjectModel.Project>
    var tasks: map<TaskId, TaskModel.Task>
    var notifications: map<NotificationId, NotificationModel.Notification>
    var nextId: nat

    /** Every stored document passed its schema's validation, every id was
        drawn from the counter, and no two users share an email. */
    ghost predicate Valid()
      reads this
    {
      && Below(users, nextId) && Below(projects, nextId)
      && Below(tasks, nextId) && Below(notifications, nextId)
      && UsersValid(users) && ProjectsValid(projects)
      && TasksValid(tasks) && NotificationsValid(notifications)
    }

    constructor()
      ensures Valid()
      ensures users == map[] && projects == map[] && tasks == map[] && notifications == map[]
      ensures nextId == 0
    {
      users, projects, tasks, notifications := map[], map[], map[], map[];
      nextId := 0;
    }

    /** A fresh ObjectId. */
    method NewId() returns (id: nat)
      requires Valid()
      modifies this`nextId
      ensures Valid()
      ensures id == old(nextId) && nextId == id + 1
    {
      id := nextId;
      nextId := nextId + 1;
    }

    /** `Task.create` / `new Task(...).save()` of a validated document. */
    method InsertTask(t: TaskModel.Task) returns (id: TaskId)
      requires Valid() && TaskModel.Conforms(t)
      modifies this`tasks, this`nextId
      ensures Valid()
      ensures id == old(nextId) && nextId == id + 1
      ensures tasks == old(tasks)[id := t]
    {
      id := NewId();
      tasks := tasks[id := t];
    }

    /** `Task.insertMany(ts)`, each document under a fresh id, in order. */
    method InsertTasks(ts: seq<TaskModel.Task>)
      requires Valid() && forall i :: 0 <= i < |ts| ==> TaskModel.Conforms(ts[i])
      modifies this`tasks, this`nextId
      ensures Valid()
      ensures nextId == old(nextId) + |ts|
      ensures tasks == Inserted(old(tasks), old(nextId), ts)
    {
      var i := 0;
      while i < |ts|
        invariant 0 <= i <= |ts|
        invariant Valid()
        invariant nextId == old(nextId) + i
        invariant tasks == Inserted(old(tasks), old(nextId), ts[..i])
      {
        assert ts[..i + 1][..i] == ts[..i];
        var _ := InsertTask(ts[i]);
        i := i + 1;
      }
      assert ts[..i] == ts;
    }

    /** `task.save()` of a loaded task that passed validation. */
    method SaveTask(id: TaskId, t: TaskModel.Task)
      requires Valid() && id in tasks && TaskModel.Conforms(t)
      modifies this`tasks
      ensures Valid()
      ensures tasks == old(tasks)[id := t]
    {
      tasks := tasks[id := t];
    }

    /** `Task.updateMany`: tasks changed in place, none added or removed. */
    method UpdateTasks(ts: map<TaskId, TaskModel.Task>)
      requires Valid() && ts.Keys == tasks.Keys && TasksValid(ts)
      modifies this`tasks
      ensures Valid()
      ensures tasks == ts
    {
      tasks := ts;
    }

    /** `Task.findByIdAndDelete` / `task.deleteOne()`. */
    method RemoveTask(id: TaskId)
      requires Valid()
      modifies this`tasks
      ensures Valid()
      ensures tasks == old(tasks) - {id}
    {
      tasks := tasks - {id};
    }

    /** `Task.deleteMany` over the ids in `doomed`. */
    method RemoveTasks(doomed: set<TaskId>)
      requires Valid()
      modifies this`tasks
      ensures Valid()
      ensures tasks == Deleted(old(tasks), doomed)
    {
      tasks := Deleted(tasks, doomed);
    }

    /** `Notification.create` of a validated document. */
    method InsertNotification(n: NotificationModel.Notification) returns (id: NotificationId)
      requires Valid() && NotificationModel.Conforms(n)
      modifies this`notifications, this`nextId
      ensures Valid()
      ensures id == old(nextId) && nextId == id + 1
      ensures notifications == old(notifications)[id := n]
    {
      id := NewId();
      notifications := notifications[id := n];
    }

    /** One `Notification.create` after another, for as many of `ns` as
        succeed: the first `delivered` of them; a failing create stops the
        loop that issues them. */
    method InsertNotifications(ns: seq<NotificationModel.Notification>, delivered: nat) returns (sent: nat)
      requires Valid() && forall i :: 0 <= i < |ns| ==> NotificationModel.Conforms(ns[i])
      modifies this`notifications, this`nextId
      ensures Valid()
      ensures sent == if delivered < |ns| then delivered else |ns|
      ensures nextId == old(nextId) + sent
      ensures notifications == Inserted(old(notifications), old(nextId), ns[..sent])
    {
      sent := 0;
      while sent < |ns| && sent < delivered
        invariant 0 <= sent <= |ns| && sent <= delivered
        invariant Valid()
        invariant nextId == old(nextId) + sent
        invariant notifications == Inserted(old(notifications), old(nextId), ns[..sent])
      {
        assert ns[..sent + 1][..sent] == ns[..sent];
        var _ := InsertNotification(ns[sent]);
        sent := sent + 1;
      }
    }

    /** `notification.save()` of a loaded notification. */
    method SaveNotification(id: NotificationId, n: NotificationModel.Notification)
      requires Valid() && id in notifications && NotificationModel.Conforms(n)
      modifies this`notifications
      ensures Valid()
      ensures notifications == old(notifications)[id := n]
    {
      notifications := notifications[id := n];
    }

    /** `Notification.findOneAndDelete`. */
    method RemoveNotification(id: NotificationId)
      requires Valid()
      modifies this`notifications
      ensures Valid()
      ensures notifications == old(notifications) - {id}
    {
      notifications := notifications - {id};
    }

    /** `Notification.deleteMany` over the ids in `doomed`. */
    method RemoveNotifications(doomed: set<NotificationId>)
      requires Valid()
      modifies this`notifications
      ensures Valid()
      ensures notifications == Deleted(old(notifications), doomed)
    {
      notifications := Deleted(notifications, doomed);
    }

    /** `User.create` of a validated document whose email is not taken. */
    method InsertUser(u: UserModel.User) returns (id: UserId)
      requires Valid() && UserModel.Conforms(u) && !EmailTaken(users, u.email)
      modifies this`users, this`nextId
      ensures Valid()
      ensures id == old(nextId) && nextId == id + 1
      ensures users == old(users)[id := u]
    {
      id := NewId();
      UsersValidAdd(users, id, u);
      users := users[id := u];
    }

    /** `user.save()` of a loaded user whose email stays its own. */
    method SaveUser(id: UserId, u: UserModel.User)
      requires Valid() && id in users && UserModel.Conforms(u) && u.email == users[id].email
      modifies this`users
      ensures Valid()
      ensures users == old(users)[id := u]
    {
      UsersValidReplace(users, id, u);
      users := users[id := u];
    }

    /** `User.findByIdAndDelete`. */
    method RemoveUser(id: UserId)
      requires Valid()
      modifies this`users
      ensures Valid()
      ensures users == old(users) - {id}
    {
      UsersValidRemove(users, id);
      users := users - {id};
    }

    /** `Project.create` of a validated document. */
    method InsertProject(p: ProjectModel.Project) returns (id: ProjectId)
      requires Valid() && ProjectModel.Conforms(p)
      modifies this`projects, this`nextId
      ensures Valid()
      ensures id == old(nextId) && nextId == id + 1
      ensures projects == old(projects)[id := p]
    {
      id := NewId();
      projects := projects[id := p];
    }

    /** `project.save()` of a loaded project that passed validation. */
    method SaveProject(id: ProjectId, p: ProjectModel.Project)
      requires Valid() && id in projects && ProjectModel.Conforms(p)
      modifies this`projects
      ensures Valid()
      ensures projects == old(projects)[id := p]
    {
      projects := projects[id := p];
    }

    /** `Project.deleteOne`. */
    method RemoveProject(id: ProjectId)
      requires Valid()
      modifies this`projects
      ensures Valid()
      ensures projects == old(projects) - {id}
    {
      projects := projects - {id};
    }
  }

  lemma UsersValidAdd(users: map<UserId, UserModel.User>, id: UserId, u: UserModel.User)
    requires UsersValid(users) && UserModel.Conforms(u) && !EmailTaken(users, u.email) && id !in users
    ensures UsersValid(users[id := u])
  {
    ConformsSet(users, id, u);
    UniqueEmailsAdd(users, id, u);
  }

  lemma UsersValidReplace(users: map<UserId, UserModel.User>, id: UserId, u: UserModel.User)
    requires UsersValid(users) && UserModel.Conforms(u) && id in users && u.email == users[id].email
    ensures UsersValid(users[id := u])
  {
    ConformsSet(users, id, u);
    UniqueEmailsReplace(users, id, u);
  }

  lemma ConformsSet(users: map<UserId, UserModel.User>, id: UserId, u: UserModel.User)
    requires forall k {:trigger UserModel.Conforms(users[k])} :: k in users ==> UserModel.Conforms(users[k])
    requires UserModel.Conforms(u)
    ensures var m := users[id := u];
      forall k {:trigger UserModel.Conforms(m[k])} :: k in m ==> UserModel.Conforms(m[k])
  {
    var m := users[id := u];
    forall k | k in m ensures UserModel.Conforms(m[k]) {
      if k != id { assert m[k] == users[k] && UserModel.Conforms(users[k]); }
    }
  }

  lemma UniqueEmailsAdd(users: map<UserId, UserModel.User>, id: UserId, u: UserModel.User)
    requires UniqueEmails(users) && !EmailTaken(users, u.email) && id !in users
    ensures UniqueEmails(users[id := u])
  {
  }

  lemma UniqueEmailsReplace(users: map<UserId, UserModel.User>, id: UserId, u: UserModel.User)
    requires UniqueEmails(users) && id in users && u.email == users[id].email
    ensures UniqueEmails(users[id := u])
  {
  }

  lemma UsersValidRemove(users: map<UserId, UserModel.User>, id: UserId)
    requires UsersValid(users)
    ensures UsersValid(users - {id})
  {
    var m := users - {id};
    forall k | k in m ensures UserModel.Conforms(m[k]) {
      assert m[k] == users[k] && UserModel.Conforms(users[k]);
    }
  }
}
