/** `mapContestantToUser`: joining one contestant to at most one roster record. */
module Matcher {
  import opened Wrappers
  import opened Model
  import opened Lists
  import Text

  /** A roster record's login, trimmed, equals the handle ignoring case.
      Only the roster side is trimmed. */
  predicate LoginMatches(user: UserData, login: string) {
    Text.EqualsIgnoreCase(Text.Trim(user.login), login)
  }

  /** The filter predicate of `mapContestantToUser`, for a fixed handle. */
  function MatchesLogin(login: string): UserData -> bool {
    (u: UserData) => LoginMatches(u, login)
  }

  /** `possibleUsers`: every roster record whose login matches, each as often as in the
      roster, in roster order, and nothing else. */
  function Candidates(users: seq<UserData>, login: string): (r: seq<UserData>)
    ensures forall i :: 0 <= i < |r| ==> LoginMatches(r[i], login)
    ensures forall u :: multiset(r)[u] == if LoginMatches(u, login) then multiset(users)[u] else 0
    ensures IsSubsequence(r, users)
  {
    FilterCounts(users, MatchesLogin(login));
    FilterKeepsOrder(users, MatchesLogin(login));
    Filter(users, MatchesLogin(login))
  }

  /** The record matched to `contestant`: present exactly when one roster index
      matches, and then it is that record; no match and several matches both give `None`. */
  function MapContestantToUser(contestant: Contestant, users: seq<UserData>): (r: Option<UserData>)
    ensures r.Some? <==> exists j :: OnlyAt(users, MatchesLogin(contestant.login), j)
    ensures forall j :: OnlyAt(users, MatchesLogin(contestant.login), j) ==> r == Some(users[j])
    ensures (forall j :: 0 <= j < |users| ==> !LoginMatches(users[j], contestant.login)) ==> r == None
    ensures (exists j, k :: 0 <= j < k < |users| && LoginMatches(users[j], contestant.login)
                                                 && LoginMatches(users[k], contestant.login)) ==> r == None
  {
    var possibleUsers := Candidates(users, contestant.login);
    CandidatesAreUnique(users, contestant.login);
    if |possibleUsers| == 1 then Some(possibleUsers[0]) else None
  }

  /** There is exactly one candidate exactly when one roster index matches. */
  lemma CandidatesAreUnique(users: seq<UserData>, login: string)
    ensures |Candidates(users, login)| == 1 <==> exists j :: OnlyAt(users, MatchesLogin(login), j)
    ensures forall j :: OnlyAt(users, MatchesLogin(login), j) ==> Candidates(users, login) == [users[j]]
  {
    FilterSingleton(users, MatchesLogin(login));
  }

  /** A roster login matches a handle when, once trimmed, it lower-cases to the handle
      lower-cased; whitespace added before or after the stored roster login never
      changes whether it matches. */
  lemma LoginMatchesLowered(user: UserData, login: string, w: string)
    ensures LoginMatches(user, login) <==> Text.Lowered(Text.Trim(user.login)) == Text.Lowered(login)
    ensures Text.AllWhitespace(w) ==>
              (LoginMatches(user.(login := user.login + w), login) <==> LoginMatches(user, login))
    ensures Text.AllWhitespace(w) ==>
              (LoginMatches(user.(login := w + user.login), login) <==> LoginMatches(user, login))
  {
    Text.EqualsIgnoreCaseIsLoweredEquality(Text.Trim(user.login), login);
    if Text.AllWhitespace(w) {
      Text.TrimAppendWs(user.login, w);
      Text.TrimPrependWs(w, user.login);
    }
  }

  /** The match depends on the contestant's login alone, so rewriting the rank keeps it. */
  lemma MatchIgnoresRank(contestant: Contestant, users: seq<UserData>, rank: int)
    ensures MapContestantToUser(contestant.(rank := rank), users) == MapContestantToUser(contestant, users)
  {
  }

  /** The contestant's handle is not trimmed: a handle with a leading space matches nobody. */
  lemma HandleIsNotTrimmed()
    ensures var users := [UserData("ann", "Ann", "School 1")];
            MapContestantToUser(Contestant("ann", 1, 1.0, []), users) == Some(users[0]) &&
            MapContestantToUser(Contestant(" ann", 1, 1.0, []), users) == None
  {
    var users := [UserData("ann", "Ann", "School 1")];
    Text.TrimDropsTrailing("ann", "");
    assert "ann" + "" == "ann";
    assert LoginMatches(users[0], "ann");
    assert OnlyAt(users, MatchesLogin("ann"), 0);
    assert !LoginMatches(users[0], " ann");
  }
}
