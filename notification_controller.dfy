/** The notification mailbox. Every route sits behind the authentication
    middleware, so the acting user is a stored user, and every handler is
    scoped to the notifications whose recipient is that user. */
module NotificationController {
  import opened Base
  import Ordering
  import opened NotificationModel
  import Database

  /** The ids of the actor's notifications: `{recipientId: req.userId}`. */
  function MailboxIds(notifications: map<NotificationId, Notification>, actor: UserId): set<NotificationId> {
    set k | k in notifications && notifications[k].recipientId == actor
  }

  function CreatedAt(n: Notification): int { n.createdAt }

  /** listNotifications: the actor's notifications (scanned in id order
      below `bound`), sorted newest first. */
  function ListNotifications(notifications: map<NotificationId, Notification>, actor: UserId, bound: nat)
    : (r: seq<Notification>)
    ensures Ordering.NewestFirst(r, CreatedAt)
    ensures multiset(r) == multiset(Mailbox(notifications, actor, bound))
  {
    Ordering.SortNewestFirst(Mailbox(notifications, actor, bound), CreatedAt)
  }

  /** The actor's notifications in id order, before sorting. */
  function Mailbox(notifications: map<NotificationId, Notification>, actor: UserId, bound: nat)
    : seq<Notification>
  {
    var ids := Ordering.Ascending(MailboxIds(notifications, actor), bound);
    Ordering.AscendingContents(MailboxIds(notifications, actor), bound);
    seq(|ids|, i requires 0 <= i < |ids| =>
          assert ids[i] in ids && ids[i] in MailboxIds(notifications, actor); notifications[ids[i]])
  }

  /** With every id below `bound`, the list is newest first, holds one entry
      per notification of the actor, and nothing addressed to anyone else. */
  lemma ListContents(notifications: map<NotificationId, Notification>, actor: UserId, bound: nat)
    requires Database.Below(notifications, bound)
    ensures var r := ListNotifications(notifications, actor, bound);
      && Ordering.NewestFirst(r, CreatedAt)
      && |r| == |MailboxIds(notifications, actor)|
      && (forall n :: n in r ==> n.recipientId == actor)
      && (forall k :: k in notifications && notifications[k].recipientId == actor ==> notifications[k] in r)
  {
    var mine := Mailbox(notifications, actor, bound);
    var r := ListNotifications(notifications, actor, bound);
    assert r == Ordering.SortNewestFirst(mine, CreatedAt);
    assert multiset(r) == multiset(mine);
    MailboxSize(notifications, actor, bound);
    MailboxMembers(notifications, actor, bound);
    forall n | n in r
      ensures n.recipientId == actor
    {
      assert n in multiset(mine);
    }
    forall k | k in notifications && notifications[k].recipientId == actor
      ensures notifications[k] in r
    {
      assert notifications[k] in multiset(mine);
    }
  }

  /** One entry per notification of the actor. */
  lemma MailboxSize(notifications: map<NotificationId, Notification>, actor: UserId, bound: nat)
    requires Database.Below(notifications, bound)
    ensures |Mailbox(notifications, actor, bound)| == |MailboxIds(notifications, actor)|
  {
    var box := MailboxIds(notifications, actor);
    Ordering.AscendingSize(box, bound);
    Ordering.UnderContents(box, bound);
    assert Ordering.Under(box, bound) == box;
  }

  /** The unsorted mailbox holds the actor's notifications and no other. */
  lemma MailboxMembers(notifications: map<NotificationId, Notification>, actor: UserId, bound: nat)
    requires Database.Below(notifications, bound)
    ensures forall n :: n in Mailbox(notifications, actor, bound) ==> n.recipientId == actor
    ensures forall k :: k in notifications && notifications[k].recipientId == actor ==>
      notifications[k] in Mailbox(notifications, actor, bound)
  {
    var box := MailboxIds(notifications, actor);
    var ids := Ordering.Ascending(box, bound);
    Ordering.AscendingContents(box, bound);
    var mine := Mailbox(notifications, actor, bound);
    forall n | n in mine
      ensures n.recipientId == actor
    {
      var i :| 0 <= i < |mine| && mine[i] == n;
      assert ids[i] in ids && ids[i] in box;
    }
    forall k | k in notifications && notifications[k].recipientId == actor
      ensures notifications[k] in mine
    {
      assert k in box;
      var i :| 0 <= i < |ids| && ids[i] == k;
      assert mine[i] == notifications[k];
    }
  }

  // ---------------------------------------------------------------------
  // markAsRead

  /** The mailbox after marking notification `id` read. */
  function MarkedRead(notifications: map<NotificationId, Notification>, id: NotificationId)
    : map<NotificationId, Notification>
    requires id in notifications
  {
    notifications[id := notifications[id].(read := true)]
  }

  /** Marking only sets `read` on that one notification, and marking twice is
      marking once. */
  lemma MarkedReadEffect(notifications: map<NotificationId, Notification>, id: NotificationId)
    requires id in notifications
    ensures var r := MarkedRead(notifications, id);
      && r.Keys == notifications.Keys
      && r[id].read && r[id].(read := notifications[id].read) == notifications[id]
      && (forall k :: k in notifications && k != id ==> r[k] == notifications[k])
      && MarkedRead(r, id) == r
  {
  }

  /** markAsRead: 404 unless the notification exists and is the actor's. */
  method MarkAsRead(db: Database.Store, actor: UserId, id: NotificationId) returns (r: Result<Notification>)
    requires db.Valid() && actor in db.users
    modifies db`notifications
    ensures db.Valid()
    ensures id !in old(db.notifications) || old(db.notifications)[id].recipientId != actor ==>
      r == Err(NotFound) && db.notifications == old(db.notifications)
    ensures id in old(db.notifications) && old(db.notifications)[id].recipientId == actor ==>
      && db.notifications == MarkedRead(old(db.notifications), id)
      && r == Ok(db.notifications[id])
  {
    if id !in db.notifications || db.notifications[id].recipientId != actor {
      return Err(NotFound);
    }
    var n := db.notifications[id];
    n := n.(read := true);
    db.SaveNotification(id, n);
    return Ok(n);
  }

  // ---------------------------------------------------------------------
  // deleteNotification and deleteAllNotifications

  /** deleteNotification: `findOneAndDelete({_id: id, recipientId})`, 404
      when nothing matches. */
  method DeleteNotification(db: Database.Store, actor: UserId, id: NotificationId) returns (r: Result<()>)
    requires db.Valid() && actor in db.users
    modifies db`notifications
    ensures db.Valid()
    ensures id !in old(db.notifications) || old(db.notifications)[id].recipientId != actor ==>
      r == Err(NotFound) && db.notifications == old(db.notifications)
    ensures id in old(db.notifications) && old(db.notifications)[id].recipientId == actor ==>
      r == Ok(()) && db.notifications == old(db.notifications) - {id}
  {
    if id !in db.notifications || db.notifications[id].recipientId != actor {
      return Err(NotFound);
    }
    db.RemoveNotification(id);
    return Ok(());
  }

  /** A deletion removes that notification alone and leaves one fewer. */
  lemma DeleteOneEffect(notifications: map<NotificationId, Notification>, id: NotificationId)
    requires id in notifications
    ensures var r := notifications - {id};
      && id !in r && |r| == |notifications| - 1
      && (forall k :: k in notifications && k != id ==> k in r && r[k] == notifications[k])
  {
    assert notifications.Keys == (notifications - {id}).Keys + {id};
  }

  /** deleteAllNotifications: `deleteMany({recipientId})`, answering the
      number deleted. */
  method DeleteAllNotifications(db: Database.Store, actor: UserId) returns (deleted: nat)
    requires db.Valid() && actor in db.users
    modifies db`notifications
    ensures db.Valid()
    ensures db.notifications == Database.Deleted(old(db.notifications), MailboxIds(old(db.notifications), actor))
    ensures deleted == |MailboxIds(old(db.notifications), actor)|
    ensures deleted + |db.notifications| == |old(db.notifications)|
  {
    var doomed := MailboxIds(db.notifications, actor);
    Database.DeletedCount(db.notifications, doomed);
    db.RemoveNotifications(doomed);
    deleted := |doomed|;
  }

  /** Emptying a mailbox leaves no notification of the actor and every
      other user's notification as it was. */
  lemma MailboxCleared(notifications: map<NotificationId, Notification>, actor: UserId)
    ensures var r := Database.Deleted(notifications, MailboxIds(notifications, actor));
      && (forall k :: k in r ==> r[k].recipientId != actor)
      && (forall k :: k in notifications && notifications[k].recipientId != actor ==>
            k in r && r[k] == notifications[k])
      && MailboxIds(r, actor) == {}
  {
  }
}
