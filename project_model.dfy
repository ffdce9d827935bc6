/** The project document and what its schema validates on save. */
module ProjectModel {
  import opened Base
  import Text

  datatype Project = Project(
    name: string,
    description: string,
    ownerId: UserId,
    members: seq<UserId>,
    maxMembers: int,
    startDate: Option<Timestamp>,
    endDate: Option<Timestamp>,
    createdAt: Timestamp)

  const DefaultMaxMembers: int := 10
  const MinMaxMembers: int := 1

  /** The name is required and stored trimmed; `maxMembers` is at least 1,
      so a stored capacity is truthy: `maxMembers || 10` reads it back
      unchanged. */
  predicate Conforms(p: Project): (b: bool)
    ensures b ==> p.maxMembers != 0
  {
    && p.name != ""
    && Text.Trimmed(p.name)
    && p.maxMembers >= MinMaxMembers
  }

  /** A stored name survives another save: the trim setter leaves it as it
      is and the `required` validator still accepts it. */
  lemma StoredName(p: Project)
    requires Conforms(p)
    ensures Text.Trim(p.name) == p.name && !Text.IsBlank(p.name)
  {
    Text.TrimOfTrimmed(p.name);
  }

  /** A project with its required fields and the schema defaults. */
  function Blank(name: string, owner: UserId, createdAt: Timestamp): (p: Project)
    ensures Conforms(p) <==> name != "" && Text.Trimmed(name)
    ensures p.name == name && p.ownerId == owner && p.createdAt == createdAt
    ensures p.description == "" && p.members == [] && p.maxMembers == DefaultMaxMembers
  {
    Project(name, "", owner, [], DefaultMaxMembers, None, None, createdAt)
  }

  /** Members-within-capacity, which the handlers check before a membership
      write but which the schema itself does not enforce. */
  predicate WithinCapacity(p: Project) {
    |p.members| <= p.maxMembers
  }
}
