/** Properties of the add-player operation: the order in which its checks
    are applied, what each refusal leaves untouched, and the invariants a
    successful addition keeps. */
module ServiceProperties {
  import opened Wrappers
  import opened Roster
  import opened Service

  /** A team that is found and owned by someone else is refused right
      after the team lookup: the player is never looked up, nothing is
      validated and nothing is written. */
  lemma OwnershipCheckedFirst(s: Store, faults: Faults, teamId: int, playerId: int, userId: int,
                              isCaptain: bool, isViceCaptain: bool, isOnBench: bool)
    requires teamId in s.teams && s.teams[teamId].userId != userId
    ensures var o := AddPlayerToTeam(s, faults, teamId, playerId, userId, isCaptain, isViceCaptain, isOnBench);
            o.result == Failure(PermissionDenied) && o.store == s && o.calls == [GetTeamById(teamId)]
    ensures var o := AddPlayerToTeamAsWritten(s, faults, teamId, playerId, userId, isCaptain, isViceCaptain, isOnBench);
            o.result == Failure(PermissionDenied) && o.store == s && o.calls == [GetTeamById(teamId)]
  {
  }

  /** The two lookups: a missing team fails with getTeamById's error after
      that one call, and a missing player on an owned team fails with the
      player-not-found error after the player lookup, before the budget
      is checked. Neither writes. */
  lemma LookupFailures(s: Store, faults: Faults, teamId: int, playerId: int, userId: int,
                       isCaptain: bool, isViceCaptain: bool, isOnBench: bool)
    ensures var o := AddPlayerToTeam(s, faults, teamId, playerId, userId, isCaptain, isViceCaptain, isOnBench);
            teamId !in s.teams ==>
              o.result == Failure(TeamNotFound(teamId)) && o.store == s && o.calls == [GetTeamById(teamId)]
    ensures var o := AddPlayerToTeamAsWritten(s, faults, teamId, playerId, userId, isCaptain, isViceCaptain, isOnBench);
            teamId !in s.teams ==>
              o.result == Failure(TeamNotFound(teamId)) && o.store == s && o.calls == [GetTeamById(teamId)]
    ensures var o := AddPlayerToTeam(s, faults, teamId, playerId, userId, isCaptain, isViceCaptain, isOnBench);
            teamId in s.teams && s.teams[teamId].userId == userId && playerId !in s.players ==>
              && o.result == Failure(PlayerNotFound(playerId)) && o.store == s
              && o.calls == [GetTeamById(teamId), FindPlayer(playerId)]
    ensures var o := AddPlayerToTeamAsWritten(s, faults, teamId, playerId, userId, isCaptain, isViceCaptain, isOnBench);
            teamId in s.teams && s.teams[teamId].userId == userId && playerId !in s.players ==>
              && o.result == Failure(PlayerNotFound(playerId)) && o.store == s
              && o.calls == [GetTeamById(teamId), FindPlayer(playerId)]
  {
  }

  /** An owner whose budget is below the player's price is refused with
      both amounts, before the current selection is read. */
  lemma BudgetCheckedBeforeSelectionRead(s: Store, faults: Faults, teamId: int, playerId: int, userId: int,
                                         isCaptain: bool, isViceCaptain: bool, isOnBench: bool)
    requires teamId in s.teams && s.teams[teamId].userId == userId
    requires playerId in s.players
    requires s.teams[teamId].budget < s.players[playerId].price
    ensures var o := AddPlayerToTeam(s, faults, teamId, playerId, userId, isCaptain, isViceCaptain, isOnBench);
            && o.result == Failure(Rejected(InsufficientBudget(s.teams[teamId].budget, s.players[playerId].price)))
            && o.store == s
            && o.calls == [GetTeamById(teamId), FindPlayer(playerId)]
  {
  }

  /** A position already at its cap refuses the player with that position
      and cap, whatever the club and squad counts and the gameweek; the
      gameweek is not looked up. */
  lemma PositionCapRefuses(s: Store, faults: Faults, teamId: int, playerId: int, userId: int,
                           isCaptain: bool, isViceCaptain: bool, isOnBench: bool)
    requires teamId in s.teams && s.teams[teamId].userId == userId
    requires playerId in s.players && s.teams[teamId].budget >= s.players[playerId].price
    requires s.players[playerId].position in Positions
    requires CountPosition(RosterOf(s, teamId), s.players[playerId].position)
          >= PositionLimit(s.players[playerId].position).value
    ensures var o := AddPlayerToTeam(s, faults, teamId, playerId, userId, isCaptain, isViceCaptain, isOnBench);
            && o.result == Failure(Rejected(PositionLimitReached(s.players[playerId].position,
                                                                PositionLimit(s.players[playerId].position).value)))
            && o.store == s
            && o.calls == [GetTeamById(teamId), FindPlayer(playerId), GetTeamSelection(teamId)]
  {
  }

  /** A position outside the four known ones is refused with "Position
      limit not found". */
  lemma UnknownPositionRefuses(s: Store, faults: Faults, teamId: int, playerId: int, userId: int,
                               isCaptain: bool, isViceCaptain: bool, isOnBench: bool)
    requires teamId in s.teams && s.teams[teamId].userId == userId
    requires playerId in s.players && s.teams[teamId].budget >= s.players[playerId].price
    requires s.players[playerId].position !in Positions
    ensures AddPlayerToTeam(s, faults, teamId, playerId, userId, isCaptain, isViceCaptain, isOnBench).result
         == Failure(Rejected(PositionLimitNotFound))
  {
  }

  /** Three players from the candidate's club already selected (and the
      position cap not reached) refuses the player with the name of the
      first such selected player's club. */
  lemma ClubCapRefuses(s: Store, faults: Faults, teamId: int, playerId: int, userId: int,
                       isCaptain: bool, isViceCaptain: bool, isOnBench: bool)
    requires teamId in s.teams && s.teams[teamId].userId == userId
    requires playerId in s.players && s.teams[teamId].budget >= s.players[playerId].price
    requires s.players[playerId].position in Positions
    requires CountPosition(RosterOf(s, teamId), s.players[playerId].position)
           < PositionLimit(s.players[playerId].position).value
    requires CountClub(RosterOf(s, teamId), s.players[playerId].clubId) >= TeamLimit
    requires s.players[playerId].clubId in s.clubNames && s.clubNames[s.players[playerId].clubId] != ""
    ensures AddPlayerToTeam(s, faults, teamId, playerId, userId, isCaptain, isViceCaptain, isOnBench).result
         == Failure(Rejected(TeamLimitReached(s.clubNames[s.players[playerId].clubId], TeamLimit)))
  {
    var roster := RosterOf(s, teamId);
    var club := s.players[playerId].clubId;
    ClubCountPositiveHasMember(roster, club);
    var name := FirstClubName(roster, club);
    assert name.Some?;
    var i :| 0 <= i < |roster| && roster[i].clubId == club && name.value == roster[i].clubName;
    assert roster[i].clubName == ClubName(s.clubNames, club);
  }

  /** With a missing or zero current gameweek an otherwise acceptable
      addition is refused with "No current gameweek found", without a write. */
  lemma MissingGameweekRefuses(s: Store, faults: Faults, teamId: int, playerId: int, userId: int,
                               isCaptain: bool, isViceCaptain: bool, isOnBench: bool)
    requires teamId in s.teams && s.teams[teamId].userId == userId
    requires playerId in s.players && s.teams[teamId].budget >= s.players[playerId].price
    requires CheckComposition(s.players[playerId], RosterOf(s, teamId)).None?
    requires s.currentGameweek.None? || s.currentGameweek == Some(0)
    ensures var o := AddPlayerToTeam(s, faults, teamId, playerId, userId, isCaptain, isViceCaptain, isOnBench);
            o.result == Failure(NoCurrentGameweek) && o.store == s && NoWrites(o.calls)
  {
  }

  /** The checks after the lookups, in the order they are applied. */
  datatype Check = BudgetCheck | PositionCheck | ClubCheck | SquadCheck | GameweekCheck

  const CheckOrder: seq<Check> := [BudgetCheck, PositionCheck, ClubCheck, SquadCheck, GameweekCheck]

  /** Whether a check is violated, stated on its own, independently of the
      other checks. */
  predicate Violates(c: Check, s: Store, teamId: int, playerId: int)
    requires teamId in s.teams && playerId in s.players
  {
    var player := s.players[playerId];
    var roster := RosterOf(s, teamId);
    match c
    case BudgetCheck => s.teams[teamId].budget < player.price
    case PositionCheck =>
      player.position !in Positions
      || CountPosition(roster, player.position) >= PositionLimit(player.position).value
    case ClubCheck => CountClub(roster, player.clubId) >= TeamLimit
    case SquadCheck => |roster| >= SquadLimit
    case GameweekCheck => s.currentGameweek.None? || s.currentGameweek.value == 0
  }

  /** Which check an error reports. */
  function CheckOf(e: AddError): Option<Check> {
    match e
    case Rejected(InsufficientBudget(_, _)) => Some(BudgetCheck)
    case Rejected(PositionLimitNotFound) => Some(PositionCheck)
    case Rejected(PositionLimitReached(_, _)) => Some(PositionCheck)
    case Rejected(TeamNameNotFound) => Some(ClubCheck)
    case Rejected(TeamLimitReached(_, _)) => Some(ClubCheck)
    case Rejected(SquadFull(_)) => Some(SquadCheck)
    case NoCurrentGameweek => Some(GameweekCheck)
    case _ => None
  }

  /** For a found team, its owner and a found player, the addition is
      refused exactly when some check is violated. */
  lemma RefusedIffViolated(s: Store, teamId: int, playerId: int, userId: int,
                           isCaptain: bool, isViceCaptain: bool, isOnBench: bool)
    requires teamId in s.teams && s.teams[teamId].userId == userId && playerId in s.players
    ensures Decide(s, teamId, playerId, userId, isCaptain, isViceCaptain, isOnBench).0.Failure?
        <==> exists i :: 0 <= i < |CheckOrder| && Violates(CheckOrder[i], s, teamId, playerId)
  {
    var r := Decide(s, teamId, playerId, userId, isCaptain, isViceCaptain, isOnBench).0;
    if r.Failure? {
      var i := FirstViolationWins(s, teamId, playerId, userId, isCaptain, isViceCaptain, isOnBench);
    } else {
      forall i | 0 <= i < |CheckOrder|
        ensures !Violates(CheckOrder[i], s, teamId, playerId)
      {
      }
    }
  }

  /** A refusal reports the earliest violated check in the order budget,
      position, club, squad, gameweek. */
  lemma FirstViolationWins(s: Store, teamId: int, playerId: int, userId: int,
                           isCaptain: bool, isViceCaptain: bool, isOnBench: bool) returns (i: nat)
    requires teamId in s.teams && s.teams[teamId].userId == userId && playerId in s.players
    requires Decide(s, teamId, playerId, userId, isCaptain, isViceCaptain, isOnBench).0.Failure?
    ensures i < |CheckOrder| && Violates(CheckOrder[i], s, teamId, playerId)
    ensures forall j :: 0 <= j < i ==> !Violates(CheckOrder[j], s, teamId, playerId)
    ensures CheckOf(Decide(s, teamId, playerId, userId, isCaptain, isViceCaptain, isOnBench).0.error)
         == Some(CheckOrder[i])
  {
    if Violates(BudgetCheck, s, teamId, playerId) {
      i := 0;
    } else if Violates(PositionCheck, s, teamId, playerId) {
      i := 1;
    } else if Violates(ClubCheck, s, teamId, playerId) {
      i := 2;
    } else if Violates(SquadCheck, s, teamId, playerId) {
      i := 3;
    } else {
      i := 4;
    }
  }

  /** No refusal writes: every error other than a failed write leaves the
      store as it was and issues neither selectPlayer nor updateTeamBudget;
      a failed selectPlayer is returned without attempting the budget update. */
  lemma RefusalsDoNotWrite(s: Store, faults: Faults, teamId: int, playerId: int, userId: int,
                           isCaptain: bool, isViceCaptain: bool, isOnBench: bool)
    ensures var o := AddPlayerToTeamAsWritten(s, faults, teamId, playerId, userId, isCaptain, isViceCaptain, isOnBench);
            && (o.result.Failure? && !o.result.error.SelectFailed? && !o.result.error.BudgetUpdateFailed? ==>
                  o.store == s && NoWrites(o.calls))
            && (o.result.Failure? && o.result.error.SelectFailed? ==>
                  o.store == s && o.calls[|o.calls| - 1].SelectPlayer?
                  && forall i :: 0 <= i < |o.calls| ==> !o.calls[i].UpdateTeamBudget?)
  {
    var (d, calls) := Decide(s, teamId, playerId, userId, isCaptain, isViceCaptain, isOnBench);
    if d.Success? {
      var o := CommitSequential(s, faults, d.value, calls);
      if o.result.Failure? && o.result.error.SelectFailed? {
        assert o.calls == calls + [SelectPlayer(teamId, d.value.gameweekId, playerId)];
      }
    }
  }

  /** After a successful addition the team's selection is the old one with
      the new player's entry appended, and every other team's selection is
      unchanged. */
  lemma SelectionGrowsByOne(s: Store, faults: Faults, teamId: int, playerId: int, userId: int,
                            isCaptain: bool, isViceCaptain: bool, isOnBench: bool)
    ensures var o := AddPlayerToTeam(s, faults, teamId, playerId, userId, isCaptain, isViceCaptain, isOnBench);
            o.result.Success? ==>
              && RosterOf(o.store, teamId)
                 == RosterOf(s, teamId) + [EntryOf(s.players[playerId], ClubName(s.clubNames, s.players[playerId].clubId))]
              && forall t :: t != teamId ==> RosterOf(o.store, t) == RosterOf(s, t)
  {
    var o := AddPlayerToTeam(s, faults, teamId, playerId, userId, isCaptain, isViceCaptain, isOnBench);
    if o.result.Success? {
      var rows := o.store.selections;
      assert rows[..|rows| - 1] == s.selections;
    }
  }

  /** The invariants a store keeps: budgets are never negative, every
      team's selection is within its quotas, and no (team, gameweek,
      player) triple is selected twice. */
  ghost predicate Consistent(s: Store) {
    && (forall t :: t in s.teams ==> s.teams[t].budget >= 0)
    && (forall t :: t in s.teams ==> WithinQuotas(RosterOf(s, t)))
    && (forall i, j :: 0 <= i < j < |s.selections| ==>
          !SameTriple(s.selections[i], s.selections[j]))
  }

  predicate SameTriple(a: TeamSelection, b: TeamSelection) {
    a.fantasyTeamId == b.fantasyTeamId && a.gameweekId == b.gameweekId && a.playerId == b.playerId
  }

  /** Every addition, successful or not, keeps a consistent store consistent. */
  lemma AdditionKeepsStoreConsistent(s: Store, faults: Faults, teamId: int, playerId: int, userId: int,
                                     isCaptain: bool, isViceCaptain: bool, isOnBench: bool)
    requires Consistent(s)
    ensures Consistent(AddPlayerToTeam(s, faults, teamId, playerId, userId, isCaptain, isViceCaptain, isOnBench).store)
  {
    var o := AddPlayerToTeam(s, faults, teamId, playerId, userId, isCaptain, isViceCaptain, isOnBench);
    if o.result.Success? {
      SelectionGrowsByOne(s, faults, teamId, playerId, userId, isCaptain, isViceCaptain, isOnBench);
      var player := s.players[playerId];
      AcceptedAdditionKeepsQuotas(player, ClubName(s.clubNames, player.clubId), RosterOf(s, teamId));
      var p := Decide(s, teamId, playerId, userId, isCaptain, isViceCaptain, isOnBench).0.value;
      assert !HasSelection(s, teamId, p.gameweekId, playerId);
      var rows := o.store.selections;
      forall i, j | 0 <= i < j < |rows|
        ensures !SameTriple(rows[i], rows[j])
      {
        if j == |rows| - 1 {
          assert rows[j] == RowOf(s, p);
          assert rows[i] == s.selections[i];
        }
      }
    }
  }

  /** Every message starts with its error's lead character. The two that
      start with 'P', the missing player and the missing position limit,
      differ in their second character. */
  lemma ErrorMessageHead(e: AddError)
    requires ReportableError(e) && ErrorMessage(e).Some?
    ensures var m := ErrorMessage(e).value;
            && |m| > 1 && m[0] == Lead(e)
            && (e.PlayerNotFound? ==> m[1] == 'l')
            && (e == Rejected(PositionLimitNotFound) ==> m[1] == 'o')
  {
    match e
    case PlayerNotFound(id) => PlayerMessageHead(id);
    case Rejected(v) => RefusalMessageHead(v);
    case PermissionDenied => PermissionMessageHead();
    case NoCurrentGameweek => GameweekMessageHead();
    case BudgetUpdateFailed => BudgetUpdateMessageHead();
  }

  lemma PlayerMessageHead(id: int)
    ensures var m := ErrorMessage(PlayerNotFound(id)).value;
            |m| > 1 && m[0] == 'P' && m[1] == 'l'
  {
    var head := "Player with id ";
    var rest := Text.IntToString(id) + " not found";
    assert ErrorMessage(PlayerNotFound(id)).value == head + rest;
    HeadChar(head, rest, 0);
    HeadChar(head, rest, 1);
  }

  lemma RefusalMessageHead(v: Violation)
    requires Reportable(v)
    ensures var m := ErrorMessage(Rejected(v)).value;
            && |m| > 1 && m[0] == Signature(v).0
            && (v == PositionLimitNotFound ==> m[1] == 'o')
  {
    MessageSignature(v);
    if v == PositionLimitNotFound {
      assert Message(v)[1] == 'o';
    }
  }

  lemma PermissionMessageHead()
    ensures var m := ErrorMessage(PermissionDenied).value;
            |m| > 1 && m[0] == 'Y'
  {
    PermissionTextHead();
  }

  lemma PermissionTextHead()
    ensures |PermissionDeniedText| > 1 && PermissionDeniedText[0] == 'Y'
  {
  }

  lemma GameweekMessageHead()
    ensures var m := ErrorMessage(NoCurrentGameweek).value;
            |m| > 1 && m[0] == 'N'
  {
  }

  lemma BudgetUpdateMessageHead()
    ensures var m := ErrorMessage(BudgetUpdateFailed).value;
            |m| > 1 && m[0] == 'F'
  {
  }

  /** Errors of different kinds carry different messages, whenever both
      carry one: a caller can tell every error apart from its text. */
  lemma ErrorMessagesDistinguishKinds(e: AddError, f: AddError)
    requires ReportableError(e) && ReportableError(f)
    requires ErrorKind(e) != ErrorKind(f)
    requires ErrorMessage(e).Some? && ErrorMessage(f).Some?
    ensures ErrorMessage(e).value != ErrorMessage(f).value
  {
    if e.Rejected? && f.Rejected? {
      MessagesDistinguishKinds(e.violation, f.violation);
    } else {
      ErrorMessageHead(e);
      ErrorMessageHead(f);
    }
  }

  /** On a consistent store the squad-size check never refuses: a team
      whose selection is within its position caps, and whose candidate's
      position is below its cap, has fewer than 15 players. */
  lemma ConsistentStoreNeverSquadFull(s: Store, faults: Faults, teamId: int, playerId: int, userId: int,
                                      isCaptain: bool, isViceCaptain: bool, isOnBench: bool)
    requires Consistent(s)
    ensures var o := AddPlayerToTeamAsWritten(s, faults, teamId, playerId, userId, isCaptain, isViceCaptain, isOnBench);
            !(o.result.Failure? && o.result.error.Rejected? && o.result.error.violation.SquadFull?)
  {
    if teamId in s.teams && playerId in s.players {
      var player := s.players[playerId];
      var roster := RosterOf(s, teamId);
      assert WithinQuotas(roster);
      if player.position in Positions && CountPosition(roster, player.position) < PositionLimit(player.position).value {
        SquadCheckUnreachable(player, roster);
      }
    }
  }

  /** The service as written and the atomic one make the same calls and
      return the same result; their stores differ only after a failed
      budget update, where the atomic one has rolled the row back. */
  lemma AsWrittenAgreesWithAtomic(s: Store, faults: Faults, teamId: int, playerId: int, userId: int,
                                  isCaptain: bool, isViceCaptain: bool, isOnBench: bool)
    ensures var a := AddPlayerToTeamAsWritten(s, faults, teamId, playerId, userId, isCaptain, isViceCaptain, isOnBench);
            var c := AddPlayerToTeam(s, faults, teamId, playerId, userId, isCaptain, isViceCaptain, isOnBench);
            && a.result == c.result && a.calls == c.calls
            && (a.result != Failure(BudgetUpdateFailed) ==> a.store == c.store)
            && (a.result == Failure(BudgetUpdateFailed) ==> c.store == s && a.store != s)
  {
  }

  /** The service as written also keeps a consistent store consistent: the
      row a failed budget update leaves behind passed every check, and the
      budget it did not debit was already non-negative. What it breaks is
      the ledger, not these invariants. */
  lemma AsWrittenKeepsStoreConsistent(s: Store, faults: Faults, teamId: int, playerId: int, userId: int,
                                      isCaptain: bool, isViceCaptain: bool, isOnBench: bool)
    requires Consistent(s)
    ensures Consistent(AddPlayerToTeamAsWritten(s, faults, teamId, playerId, userId, isCaptain, isViceCaptain, isOnBench).store)
  {
    var o := AddPlayerToTeamAsWritten(s, faults, teamId, playerId, userId, isCaptain, isViceCaptain, isOnBench);
    AsWrittenAgreesWithAtomic(s, faults, teamId, playerId, userId, isCaptain, isViceCaptain, isOnBench);
    if o.result == Failure(BudgetUpdateFailed) {
      var good := Faults(false, false);
      var c := AddPlayerToTeam(s, good, teamId, playerId, userId, isCaptain, isViceCaptain, isOnBench);
      AdditionKeepsStoreConsistent(s, good, teamId, playerId, userId, isCaptain, isViceCaptain, isOnBench);
      var p := Decide(s, teamId, playerId, userId, isCaptain, isViceCaptain, isOnBench).0.value;
      assert c.store == Applied(s, p);
      assert o.store == c.store.(teams := s.teams);
      forall t | t in o.store.teams
        ensures WithinQuotas(RosterOf(o.store, t))
      {
        assert RosterOf(o.store, t) == RosterOf(c.store, t);
      }
    } else {
      AdditionKeepsStoreConsistent(s, faults, teamId, playerId, userId, isCaptain, isViceCaptain, isOnBench);
    }
  }

  /** The money a team has spent: the prices of the players its rows select. */
  function Spent(rows: seq<TeamSelection>, players: map<int, Player>, teamId: int): Cents {
    if |rows| == 0 then 0
    else
      var row := rows[|rows| - 1];
      Spent(rows[..|rows| - 1], players, teamId)
        + (if row.fantasyTeamId == teamId && row.playerId in players then players[row.playerId].price else 0)
  }

  /** A team's budget plus what it has spent. */
  function Ledger(s: Store, teamId: int): Cents
    requires teamId in s.teams
  {
    s.teams[teamId].budget + Spent(s.selections, s.players, teamId)
  }

  /** Every addition, successful or refused, keeps every team's budget plus
      spending where it was: no money is created or lost. */
  lemma AdditionKeepsLedger(s: Store, faults: Faults, teamId: int, playerId: int, userId: int,
                            isCaptain: bool, isViceCaptain: bool, isOnBench: bool, t: int)
    requires t in s.teams
    ensures var o := AddPlayerToTeam(s, faults, teamId, playerId, userId, isCaptain, isViceCaptain, isOnBench);
            t in o.store.teams && Ledger(o.store, t) == Ledger(s, t)
  {
    var o := AddPlayerToTeam(s, faults, teamId, playerId, userId, isCaptain, isViceCaptain, isOnBench);
    if o.result.Success? {
      var rows := o.store.selections;
      assert rows[..|rows| - 1] == s.selections;
    }
  }
}
