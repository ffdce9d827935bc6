/** The task document: its enumerations, sub-documents, schema defaults and
    the bounds the schema validates on every save. */
module TaskModel {
  import opened Base
  import Files

  /** Lifecycle state of a task. */
  datatype TaskStatus = Todo | InProgress | Done | Validated

  function StatusName(s: TaskStatus): string {
    match s
    case Todo => "todo"
    case InProgress => "in_progress"
    case Done => "done"
    case Validated => "validated"
  }

  /** Enum validation of `status`: `None` for a string outside the enum. */
  function ParseStatus(s: string): (r: Option<TaskStatus>)
    ensures r.Some? ==> StatusName(r.value) == s
    ensures r.None? ==> forall x :: StatusName(x) != s
  {
    if s == "todo" then Some(Todo)
    else if s == "in_progress" then Some(InProgress)
    else if s == "done" then Some(Done)
    else if s == "validated" then Some(Validated)
    else None
  }

  lemma ParseStatusName(x: TaskStatus)
    ensures ParseStatus(StatusName(x)) == Some(x)
  {
  }

  /** Position of a status on the todo -> in_progress -> done -> validated
      path. */
  function Rank(s: TaskStatus): nat {
    match s
    case Todo => 0
    case InProgress => 1
    case Done => 2
    case Validated => 3
  }

  /** Whether the assignees have taken up the task. */
  datatype Participation = Pending | Accepted | Declined

  function ParticipationName(p: Participation): string {
    match p
    case Pending => "pending"
    case Accepted => "accepted"
    case Declined => "declined"
  }

  function ParseParticipation(s: string): (r: Option<Participation>)
    ensures r.Some? ==> ParticipationName(r.value) == s
    ensures r.None? ==> forall x :: ParticipationName(x) != s
  {
    if s == "pending" then Some(Pending)
    else if s == "accepted" then Some(Accepted)
    else if s == "declined" then Some(Declined)
    else None
  }

  lemma ParseParticipationName(x: Participation)
    ensures ParseParticipation(ParticipationName(x)) == Some(x)
  {
  }

  /** Review state of a progress report. */
  datatype ReportStatus = Submitted | Approved | Rejected

  function ReportStatusName(s: ReportStatus): string {
    match s
    case Submitted => "submitted"
    case Approved => "approved"
    case Rejected => "rejected"
  }

  function ParseReportStatus(s: string): (r: Option<ReportStatus>)
    ensures r.Some? ==> ReportStatusName(r.value) == s
    ensures r.None? ==> forall x :: ReportStatusName(x) != s
  {
    if s == "submitted" then Some(Submitted)
    else if s == "approved" then Some(Approved)
    else if s == "rejected" then Some(Rejected)
    else None
  }

  lemma ParseReportStatusName(x: ReportStatus)
    ensures ParseReportStatus(ReportStatusName(x)) == Some(x)
  {
  }

  datatype Priority = Low | Medium | High

  function PriorityName(p: Priority): string {
    match p
    case Low => "low"
    case Medium => "medium"
    case High => "high"
  }

  function ParsePriority(s: string): (r: Option<Priority>)
    ensures r.Some? ==> PriorityName(r.value) == s
    ensures r.None? ==> forall x :: PriorityName(x) != s
  {
    if s == "low" then Some(Low)
    else if s == "medium" then Some(Medium)
    else if s == "high" then Some(High)
    else None
  }

  lemma ParsePriorityName(x: Priority)
    ensures ParsePriority(PriorityName(x)) == Some(x)
  {
  }

  datatype Visibility = Personal | Shared

  function VisibilityName(v: Visibility): string {
    match v
    case Personal => "personal"
    case Shared => "shared"
  }

  function ParseVisibility(s: string): (r: Option<Visibility>)
    ensures r.Some? ==> VisibilityName(r.value) == s
    ensures r.None? ==> forall x :: VisibilityName(x) != s
  {
    if s == "personal" then Some(Personal)
    else if s == "shared" then Some(Shared)
    else None
  }

  lemma ParseVisibilityName(x: Visibility)
    ensures ParseVisibility(VisibilityName(x)) == Some(x)
  {
  }

  /** An uploaded file as recorded on a task or a report. */
  datatype Attachment = Attachment(
    fileName: string,
    originalName: string,
    size: int,
    url: string,
    mimeType: string)

  /** A file as the upload middleware describes it. */
  datatype Upload = Upload(fileName: string, originalName: string, size: int, mimeType: string)

  /** The attachment recorded for an upload, served under `/uploads/`. */
  function FromUpload(f: Upload): (a: Attachment)
    ensures a.fileName == f.fileName && a.originalName == f.originalName
    ensures a.size == f.size && a.mimeType == f.mimeType
    ensures a.url == Files.UploadUrl(f.fileName)
  {
    Attachment(f.fileName, f.originalName, f.size, Files.UploadUrl(f.fileName), f.mimeType)
  }

  function FromUploads(fs: seq<Upload>): (r: seq<Attachment>)
    ensures |r| == |fs| && forall i :: 0 <= i < |fs| ==> r[i] == FromUpload(fs[i])
  {
    seq(|fs|, i requires 0 <= i < |fs| => FromUpload(fs[i]))
  }

  /** A progress report (an embedded sub-document with its own id). */
  datatype ProgressReport = ProgressReport(
    id: ReportId,
    userId: UserId,
    content: string,
    createdAt: Timestamp,
    status: ReportStatus,
    reviewedBy: Option<UserId>,
    reviewedAt: Option<Timestamp>,
    reviewComment: string,        // "" when never reviewed
    attachments: seq<Attachment>)

  /** One accept or decline, appended by the assignee's answer. */
  datatype ParticipationLog = ParticipationLog(
    userId: UserId,
    userName: string,
    status: Participation,
    at: Timestamp)

  datatype Task = Task(
    title: string,
    description: string,
    completed: bool,
    status: TaskStatus,
    userId: UserId,               // the owner (creator)
    assignedTo: seq<UserId>,
    projectId: Option<ProjectId>,
    validatedBy: Option<UserId>,
    participationStatus: Participation,
    attachments: seq<Attachment>,
    progressReports: seq<ProgressReport>,
    participationLogs: seq<ParticipationLog>,
    dueDate: Option<Timestamp>,
    progress: int,
    priority: Priority,
    visibility: Visibility,
    createdAt: Timestamp)

  const MinProgress: int := 0
  const MaxProgress: int := 100

  /** What the schema validates when a task is saved: a non-empty title,
      progress within [0, 100], and log entries that are accepted or
      declined (the log enum has no "pending"). */
  predicate Conforms(t: Task): (b: bool)
    ensures b ==> Clamp(t.progress) == t.progress
    ensures b ==> forall i :: 0 <= i < |t.participationLogs| ==>
      ParticipationName(t.participationLogs[i].status) == "accepted"
      || ParticipationName(t.participationLogs[i].status) == "declined"
  {
    && t.title != ""
    && MinProgress <= t.progress <= MaxProgress
    && forall i :: 0 <= i < |t.participationLogs| ==> t.participationLogs[i].status != Pending
  }

  /** A task holding only its required fields and the schema defaults for
      everything else. */
  function Blank(title: string, owner: UserId, createdAt: Timestamp): (t: Task)
    ensures Conforms(t) <==> title != ""
    ensures t.title == title && t.userId == owner && t.createdAt == createdAt
  {
    Task(title, "", false, Todo, owner, [], None, None, Pending, [], [], [], None,
         0, Medium, Personal, createdAt)
  }

  /** The schema defaults, stated once against the enum names. */
  lemma BlankDefaults(title: string, owner: UserId, createdAt: Timestamp)
    ensures var t := Blank(title, owner, createdAt);
      && StatusName(t.status) == "todo"
      && ParticipationName(t.participationStatus) == "pending"
      && PriorityName(t.priority) == "medium"
      && VisibilityName(t.visibility) == "personal"
      && t.progress == 0 && !t.completed && t.description == ""
      && t.assignedTo == [] && t.progressReports == [] && t.participationLogs == []
  {
  }

  /** `Math.max(0, Math.min(100, p))`. */
  function Clamp(p: int): (r: int)
    ensures MinProgress <= r <= MaxProgress
    ensures MinProgress <= p <= MaxProgress ==> r == p
    ensures p < MinProgress ==> r == MinProgress
    ensures p > MaxProgress ==> r == MaxProgress
  {
    if p < MinProgress then MinProgress else if p > MaxProgress then MaxProgress else p
  }

  lemma ClampIdempotent(p: int)
    ensures Clamp(Clamp(p)) == Clamp(p)
  {
  }

  /** Whether `u` is among the assignees. */
  predicate IsAssignee(t: Task, u: UserId) {
    u in t.assignedTo
  }

  /** Index of the first report with id `rid` (`progressReports.id(rid)`),
      `|reports|` when there is none. */
  function FindReport(reports: seq<ProgressReport>, rid: ReportId): (i: nat)
    ensures i <= |reports|
    ensures i < |reports| ==> reports[i].id == rid
    ensures forall j :: 0 <= j < i ==> reports[j].id != rid
  {
    if reports == [] then 0
    else if reports[0].id == rid then 0
    else 1 + FindReport(reports[1..], rid)
  }

  /** The lookup depends on the reports' ids only. */
  lemma FindReportByIds(a: seq<ProgressReport>, b: seq<ProgressReport>, rid: ReportId)
    requires |a| == |b| && forall j :: 0 <= j < |a| ==> a[j].id == b[j].id
    ensures FindReport(a, rid) == FindReport(b, rid)
  {
  }
}
