/** A scoring team: an identity, a display name and a score, none of which ever change. */
module Teams {

  /** A 128-bit globally unique identifier. */
  newtype Guid = x: int | 0 <= x < 0x1_0000_0000_0000_0000_0000_0000_0000_0000

  /** The three read-only properties of a team. */
  datatype TeamFields = TeamFields(id: Guid, name: string, score: int)

  /**
   * A team. Its fields are read-only and the only constructor sets the score
   * to 0, so no team has any other score.
   */
  type Team = t: TeamFields | t.score == 0 witness TeamFields(0, "", 0)

  /**
   * Builds a team from a freshly generated identifier (given here, since
   * generating it is random) and a name; every new team starts at score 0.
   */
  function NewTeam(id: Guid, name: string): (t: Team)
    ensures t.id == id
    ensures t.name == name
    ensures t.score == 0
  {
    TeamFields(id, name, 0)
  }
}
