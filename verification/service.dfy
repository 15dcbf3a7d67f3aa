/** The add-player operation of the fantasy-team service
    (src/services/fantasyTeamService.ts) over an abstract store.

    The repository calls the service makes are modelled on a value of type
    `Store`: the fantasy teams, the players, the club names, the
    team_selections rows and the current gameweek. Every call the service
    makes is recorded, in order, in a call log, so that "what happens before
    what" and "which writes were attempted" can be stated. Failures of the
    two writes that do not follow from the store's contents (a lost
    connection, say) are an explicit `Faults` parameter. */
module Service {
  import opened Wrappers
  import opened Roster
  import Text

  /** One row of the team_selections table. */
  datatype TeamSelection = TeamSelection(
    id: int,
    fantasyTeamId: int,
    gameweekId: int,
    playerId: int,
    isCaptain: bool,
    isViceCaptain: bool,
    isOnBench: bool)

  datatype Store = Store(
    teams: map<int, FantasyTeam>,
    players: map<int, Player>,
    clubNames: map<int, string>,
    selections: seq<TeamSelection>,
    nextSelectionId: int,
    currentGameweek: Option<int>)

  /** The repository calls, as the service issues them. */
  datatype StoreCall =
    | GetTeamById(teamId: int)
    | FindPlayer(playerId: int)
    | GetTeamSelection(teamId: int)
    | GetCurrentGameweek
    | SelectPlayer(teamId: int, gameweekId: int, playerId: int)
    | UpdateTeamBudget(teamId: int, playerId: int, budget: Cents)

  predicate IsWrite(c: StoreCall) {
    c.SelectPlayer? || c.UpdateTeamBudget?
  }

  predicate NoWrites(calls: seq<StoreCall>) {
    forall i :: 0 <= i < |calls| ==> !IsWrite(calls[i])
  }

  /** Failures of the two writes that the store contents do not explain. */
  datatype Faults = Faults(selectFails: bool, budgetUpdateFails: bool)

  datatype SelectFailure = DuplicateSelection | StorageFailure

  /** Every error the operation can return. */
  datatype AddError =
    | TeamNotFound(teamId: int)
    | PermissionDenied
    | PlayerNotFound(playerId: int)
    | Rejected(violation: Violation)
    | NoCurrentGameweek
    | SelectFailed(reason: SelectFailure)
    | BudgetUpdateFailed

  /** The ownership refusal's text, written in two parts: a single literal
      this long is more than the verifier unfolds to read its characters. */
  const PermissionDeniedText: string := "You do not have permission" + " to modify this team"

  /** The message each error carries: the service's own texts, the
      refusals' messages, and the not-found text of playerRepository's
      findById, which the service passes on. `None` for the errors of
      getTeamById and selectPlayer, repository methods whose text is not
      part of this model. */
  function ErrorMessage(e: AddError): (r: Option<string>)
    ensures r.None? <==> e.TeamNotFound? || e.SelectFailed?
  {
    match e
    case TeamNotFound(_) => None
    case PermissionDenied => Some(PermissionDeniedText)
    case PlayerNotFound(id) => Some("Player with id " + Text.IntToString(id) + " not found")
    case Rejected(v) => Some(Message(v))
    case NoCurrentGameweek => Some("No current gameweek found")
    case SelectFailed(_) => None
    case BudgetUpdateFailed => Some("Failed to update team budget")
  }

  /** The kind of an error; each refusal kind is a kind of its own. */
  function ErrorKind(e: AddError): nat {
    match e
    case TeamNotFound(_) => 0
    case PermissionDenied => 1
    case PlayerNotFound(_) => 2
    case NoCurrentGameweek => 3
    case SelectFailed(_) => 4
    case BudgetUpdateFailed => 5
    case Rejected(v) => 10 + KindOf(v)
  }

  /** The errors the operation can actually return: a position refusal
      names one of the four positions. */
  predicate ReportableError(e: AddError) {
    e.Rejected? ==> Reportable(e.violation)
  }

  /** The first character of each message. */
  function Lead(e: AddError): char {
    match e
    case PermissionDenied => 'Y'
    case PlayerNotFound(_) => 'P'
    case NoCurrentGameweek => 'N'
    case BudgetUpdateFailed => 'F'
    case Rejected(v) => Signature(v).0
    case _ => ' '
  }

  /** What the operation returns, the store it leaves behind and the
      repository calls it made. */
  datatype Outcome = Outcome(result: Result<TeamSelection, AddError>, store: Store, calls: seq<StoreCall>)

  /** getTeamSelection(teamId): the selection rows of the team joined with
      their players and the players' clubs. Rows whose player is missing
      (which the foreign key rules out) are skipped. */
  function RosterOf(s: Store, teamId: int): (r: seq<RosterEntry>)
    ensures |r| <= |s.selections|
    ensures forall i :: 0 <= i < |r| ==> r[i].clubName == ClubName(s.clubNames, r[i].clubId)
  {
    RosterOfRows(s.selections, s.players, s.clubNames, teamId)
  }

  function RosterOfRows(rows: seq<TeamSelection>, players: map<int, Player>,
                        clubNames: map<int, string>, teamId: int): (r: seq<RosterEntry>)
    ensures |r| <= |rows|
    ensures forall i :: 0 <= i < |r| ==> r[i].clubName == ClubName(clubNames, r[i].clubId)
  {
    if |rows| == 0 then []
    else
      var init := RosterOfRows(rows[..|rows| - 1], players, clubNames, teamId);
      var row := rows[|rows| - 1];
      if row.fantasyTeamId == teamId && row.playerId in players then
        init + [EntryOf(players[row.playerId], ClubName(clubNames, players[row.playerId].clubId))]
      else init
  }

  function ClubName(clubNames: map<int, string>, clubId: int): Option<string> {
    if clubId in clubNames then Some(clubNames[clubId]) else None
  }

  /** The gameweek test `if (!gameweekId)`: a missing id and id 0 both
      count as "no current gameweek". */
  function CurrentGameweekId(s: Store): (r: Option<int>)
    ensures r.Some? <==> s.currentGameweek.Some? && s.currentGameweek.value != 0
    ensures r.Some? ==> r.value == s.currentGameweek.value
  {
    match s.currentGameweek
    case Some(id) => if id != 0 then Some(id) else None
    case None => None
  }

  predicate HasSelection(s: Store, teamId: int, gameweekId: int, playerId: int) {
    exists i :: 0 <= i < |s.selections| && s.selections[i].fantasyTeamId == teamId
                && s.selections[i].gameweekId == gameweekId && s.selections[i].playerId == playerId
  }

  /** The write the service decides on once every check has passed. */
  datatype Plan = Plan(teamId: int, team: FantasyTeam, playerId: int, player: Player, gameweekId: int,
                       isCaptain: bool, isViceCaptain: bool, isOnBench: bool) {
    function NewBudget(): Cents {
      team.budget - player.price
    }
  }

  /** Everything up to the first write: team lookup, ownership, player
      lookup, the budget check, reading the selection, the position, club
      and squad checks, and the gameweek lookup. Returns the error or the
      planned write, together with the calls made. */
  function Decide(s: Store, teamId: int, playerId: int, userId: int,
                  isCaptain: bool, isViceCaptain: bool, isOnBench: bool)
    : (r: (Result<Plan, AddError>, seq<StoreCall>))
    ensures NoWrites(r.1)
    ensures |r.1| >= 1 && r.1[0] == GetTeamById(teamId)
    ensures teamId !in s.teams ==> r == (Failure(TeamNotFound(teamId)), [GetTeamById(teamId)])
    ensures teamId in s.teams && s.teams[teamId].userId == userId && playerId !in s.players ==>
              r == (Failure(PlayerNotFound(playerId)), [GetTeamById(teamId), FindPlayer(playerId)])
    ensures r.0.Success? ==>
      && teamId in s.teams && playerId in s.players
      && s.teams[teamId].userId == userId
      && s.teams[teamId].budget >= s.players[playerId].price
      && CheckComposition(s.players[playerId], RosterOf(s, teamId)).None?
      && CurrentGameweekId(s).Some?
      && r.0.value == Plan(teamId, s.teams[teamId], playerId, s.players[playerId],
                           CurrentGameweekId(s).value, isCaptain, isViceCaptain, isOnBench)
  {
    var c0 := [GetTeamById(teamId)];
    if teamId !in s.teams then (Failure(TeamNotFound(teamId)), c0)
    else
      var team := s.teams[teamId];
      if team.userId != userId then (Failure(PermissionDenied), c0)
      else
        var c1 := [GetTeamById(teamId), FindPlayer(playerId)];
        if playerId !in s.players then (Failure(PlayerNotFound(playerId)), c1)
        else
          var player := s.players[playerId];
          var budget := CheckBudget(team.budget, player);
          if budget.Some? then (Failure(Rejected(budget.value)), c1)
          else
            var c2 := c1 + [GetTeamSelection(teamId)];
            var composition := CheckComposition(player, RosterOf(s, teamId));
            if composition.Some? then (Failure(Rejected(composition.value)), c2)
            else
              var c3 := c2 + [GetCurrentGameweek];
              var gameweek := CurrentGameweekId(s);
              if gameweek.None? then (Failure(NoCurrentGameweek), c3)
              else (Success(Plan(teamId, team, playerId, player, gameweek.value, isCaptain, isViceCaptain, isOnBench)), c3)
  }

  /** The row selectPlayer inserts for a plan. */
  function RowOf(s: Store, p: Plan): TeamSelection {
    TeamSelection(s.nextSelectionId, p.teamId, p.gameweekId, p.playerId,
                  p.isCaptain, p.isViceCaptain, p.isOnBench)
  }

  /** The selectPlayer call: refused when the (team, gameweek, player) triple is
      already selected (the UNIQUE constraint of team_selections) or when
      the storage fails; otherwise the row is appended. */
  function InsertSelection(s: Store, faults: Faults, p: Plan): (r: Result<(TeamSelection, Store), SelectFailure>)
    ensures r.Failure? <==> faults.selectFails || HasSelection(s, p.teamId, p.gameweekId, p.playerId)
    ensures r.Success? ==> r.value.0 == RowOf(s, p)
    ensures r.Success? ==> r.value.1 == s.(selections := s.selections + [RowOf(s, p)],
                                           nextSelectionId := s.nextSelectionId + 1)
  {
    if HasSelection(s, p.teamId, p.gameweekId, p.playerId) then Failure(DuplicateSelection)
    else if faults.selectFails then Failure(StorageFailure)
    else
      var row := RowOf(s, p);
      Success((row, s.(selections := s.selections + [row], nextSelectionId := s.nextSelectionId + 1)))
  }

  /** The updateTeamBudget call: writes the team's new budget. */
  function WriteBudget(s: Store, teamId: int, budget: Cents): (r: Store)
    requires teamId in s.teams
    ensures teamId in r.teams && r.teams[teamId].budget == budget
    ensures r.teams[teamId] == s.teams[teamId].(budget := budget)
    ensures forall t :: t in s.teams && t != teamId ==> t in r.teams && r.teams[t] == s.teams[t]
    ensures r.teams.Keys == s.teams.Keys
    ensures r.(teams := s.teams) == s
  {
    s.(teams := s.teams[teamId := s.teams[teamId].(budget := budget)])
  }

  /** The store after a complete addition: the new row appended and the
      team's budget debited by the player's price. */
  function Applied(s: Store, p: Plan): Store
    requires p.teamId in s.teams
  {
    s.(selections := s.selections + [RowOf(s, p)],
       nextSelectionId := s.nextSelectionId + 1,
       teams := s.teams[p.teamId := s.teams[p.teamId].(budget := p.NewBudget())])
  }

  /** The two writes as the service issues them: selectPlayer, then, only if
      that succeeded, updateTeamBudget. A failed budget update leaves the
      inserted row in place. */
  function CommitSequential(s: Store, faults: Faults, p: Plan, calls: seq<StoreCall>): (o: Outcome)
    requires p.teamId in s.teams
    ensures o.result.Success? <==>
              !faults.selectFails && !faults.budgetUpdateFails
              && !HasSelection(s, p.teamId, p.gameweekId, p.playerId)
    ensures o.result.Success? ==> o.result.value == RowOf(s, p) && o.store == Applied(s, p)
    ensures o.result.Failure? && o.result.error.SelectFailed? ==>
              o.store == s && calls < o.calls && !o.calls[|o.calls| - 1].UpdateTeamBudget?
    ensures o.result.Failure? && !o.result.error.SelectFailed? ==>
              o.result.error == BudgetUpdateFailed
              && o.store == s.(selections := s.selections + [RowOf(s, p)],
                               nextSelectionId := s.nextSelectionId + 1)
  {
    var c1 := calls + [SelectPlayer(p.teamId, p.gameweekId, p.playerId)];
    match InsertSelection(s, faults, p)
    case Failure(why) => Outcome(Failure(SelectFailed(why)), s, c1)
    case Success((row, s1)) =>
      var c2 := c1 + [UpdateTeamBudget(p.teamId, p.playerId, p.NewBudget())];
      if faults.budgetUpdateFails then Outcome(Failure(BudgetUpdateFailed), s1, c2)
      else Outcome(Success(row), WriteBudget(s1, p.teamId, p.NewBudget()), c2)
  }

  /** The two writes as one transaction: when the budget update fails the
      inserted row is rolled back, so either both writes happen or neither. */
  function CommitAtomic(s: Store, faults: Faults, p: Plan, calls: seq<StoreCall>): (o: Outcome)
    requires p.teamId in s.teams
    ensures o.result.Success? <==>
              !faults.selectFails && !faults.budgetUpdateFails
              && !HasSelection(s, p.teamId, p.gameweekId, p.playerId)
    ensures o.result.Success? ==> o.result.value == RowOf(s, p) && o.store == Applied(s, p)
    ensures o.result.Failure? ==> o.store == s
  {
    var c1 := calls + [SelectPlayer(p.teamId, p.gameweekId, p.playerId)];
    match InsertSelection(s, faults, p)
    case Failure(why) => Outcome(Failure(SelectFailed(why)), s, c1)
    case Success((row, s1)) =>
      var c2 := c1 + [UpdateTeamBudget(p.teamId, p.playerId, p.NewBudget())];
      if faults.budgetUpdateFails then Outcome(Failure(BudgetUpdateFailed), s, c2)
      else Outcome(Success(row), WriteBudget(s1, p.teamId, p.NewBudget()), c2)
  }

  /** addPlayerToTeam as written: the checks, then the two sequential writes.
      When the budget update fails the inserted row stays and the budget is
      not debited. */
  function AddPlayerToTeamAsWritten(s: Store, faults: Faults, teamId: int, playerId: int, userId: int,
                                    isCaptain: bool, isViceCaptain: bool, isOnBench: bool): (o: Outcome)
    ensures o.result.Failure? && o.result.error != BudgetUpdateFailed ==> o.store == s
    ensures o.result.Failure? && o.result.error == BudgetUpdateFailed ==>
      && o.store.teams == s.teams
      && |o.store.selections| == |s.selections| + 1
      && o.store.selections[..|s.selections|] == s.selections
      && o.store.selections[|s.selections|].fantasyTeamId == teamId
      && o.store.selections[|s.selections|].playerId == playerId
      && s.currentGameweek.Some?
      && o.store == s.(selections := s.selections + [TeamSelection(s.nextSelectionId, teamId, s.currentGameweek.value, playerId,
                                                                   isCaptain, isViceCaptain, isOnBench)],
                       nextSelectionId := s.nextSelectionId + 1)
    ensures o.result.Success? ==>
      && teamId in s.teams && playerId in s.players
      && s.currentGameweek.Some?
      && o.result.value == TeamSelection(s.nextSelectionId, teamId, s.currentGameweek.value, playerId,
                                         isCaptain, isViceCaptain, isOnBench)
      && o.store.selections == s.selections + [o.result.value]
      && teamId in o.store.teams
      && o.store.teams[teamId].budget == s.teams[teamId].budget - s.players[playerId].price
      && o.store.teams[teamId].budget >= 0
      && o.store == s.(selections := s.selections + [o.result.value],
                       nextSelectionId := s.nextSelectionId + 1,
                       teams := s.teams[teamId := s.teams[teamId].(budget := s.teams[teamId].budget - s.players[playerId].price)])
  {
    var (decision, calls) := Decide(s, teamId, playerId, userId, isCaptain, isViceCaptain, isOnBench);
    match decision
    case Failure(e) => Outcome(Failure(e), s, calls)
    case Success(p) => CommitSequential(s, faults, p, calls)
  }

  /** addPlayerToTeam with its two writes committed together, as the
      comment above selectPlayer says they should be. */
  function AddPlayerToTeam(s: Store, faults: Faults, teamId: int, playerId: int, userId: int,
                           isCaptain: bool, isViceCaptain: bool, isOnBench: bool): (o: Outcome)
    ensures o.result.Failure? ==> o.store == s
    ensures o.result.Success? ==>
      && teamId in s.teams && playerId in s.players
      && s.currentGameweek.Some?
      && o.result.value == TeamSelection(s.nextSelectionId, teamId, s.currentGameweek.value, playerId,
                                         isCaptain, isViceCaptain, isOnBench)
      && o.store.selections == s.selections + [o.result.value]
      && teamId in o.store.teams
      && o.store.teams[teamId].budget == s.teams[teamId].budget - s.players[playerId].price
      && o.store.teams[teamId].budget >= 0
      && o.store == s.(selections := s.selections + [o.result.value],
                       nextSelectionId := s.nextSelectionId + 1,
                       teams := s.teams[teamId := s.teams[teamId].(budget := s.teams[teamId].budget - s.players[playerId].price)])
  {
    var (decision, calls) := Decide(s, teamId, playerId, userId, isCaptain, isViceCaptain, isOnBench);
    match decision
    case Failure(e) => Outcome(Failure(e), s, calls)
    case Success(p) => CommitAtomic(s, faults, p, calls)
  }
}
