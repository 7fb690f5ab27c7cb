/** The records of Main.kt: roster users, contestants, and the pairs the pipeline carries. */
module Model {
  import opened Wrappers

  /** One roster record read from the spreadsheet. */
  datatype UserData = UserData(login: string, name: string, school: string)

  /** "No profile": the text every field of `NullUser` carries. */
  const NoProfile: string := "Нет анкеты"

  /** The stand-in the report prints for a contestant with no roster match. */
  const NullUser: UserData := UserData(NoProfile, NoProfile, NoProfile)

  /** One standings row: handle, raw rank, total points and the points per problem.
      Points are only compared and carried along, so `real` stands for `Double`. */
  datatype Contestant = Contestant(login: string, rank: int, points: real, problems: seq<real>)

  /** A contestant and the roster record matched to it, if any. */
  datatype MatchedRow = MatchedRow(contestant: Contestant, user: Option<UserData>)

  /** A copy of the pair whose contestant carries the rank `rank`; the matched user is kept. */
  function WithRank(row: MatchedRow, rank: int): MatchedRow {
    MatchedRow(row.contestant.(rank := rank), row.user)
  }

  /** Rewriting the rank touches nothing else: putting the old rank back restores the pair. */
  lemma WithRankRestores(row: MatchedRow, rank: int)
    ensures WithRank(row, rank).contestant.rank == rank
    ensures WithRank(WithRank(row, rank), row.contestant.rank) == row
  {
  }
}
