/** The notification document. */
module NotificationModel {
  import opened Base

  /** The part of the free-form `data` object the model keeps: the task
      and the project a notification refers to. The project delete matches
      on `projectId`. */
  datatype Payload = Payload(taskId: Option<TaskId>, projectId: Option<ProjectId>)

  const EmptyPayload: Payload := Payload(None, None)

  datatype Notification = Notification(
    recipientId: UserId,
    kind: string,                 // the `type` field
    title: string,
    message: string,
    data: Payload,
    read: bool,
    createdAt: Timestamp)

  /** `type` and `title` are required: both must be truthy strings. */
  predicate Conforms(n: Notification): (b: bool)
    ensures b <==> Truthy(Some(n.kind)) && Truthy(Some(n.title))
  {
    n.kind != "" && n.title != ""
  }

  /** A freshly created, unread notification with the default message. */
  function New(recipient: UserId, kind: string, title: string, data: Payload, createdAt: Timestamp): (n: Notification)
    ensures Conforms(n) <==> kind != "" && title != ""
    ensures !n.read && n.message == ""
    ensures n.recipientId == recipient && n.kind == kind && n.title == title && n.data == data
  {
    Notification(recipient, kind, title, "", data, false, createdAt)
  }

  // The kinds and titles the task handlers file under.
  const KindAssignment: string := "task_assignment"
  const KindParticipation: string := "task_participation"
  const KindProgressSubmitted: string := "progress_submitted"
  const KindProgressReview: string := "progress_review"
}
