/** The match-scoring rule of the player-stats service
    (src/services/playerStatsService.ts): points for minutes, goals,
    assists and cards keyed on the API's one-letter position, a separate
    bonus, and the lookup of a player's statistics in an API response.
    Counts are integers; a `None` count is the API's `null`. */
module Scoring {
  import opened Wrappers

  /** The fields of one statistics entry that the rule reads. */
  datatype Statistic = Statistic(
    minutes: int,
    position: string,
    goals: Option<int>,
    assists: Option<int>,
    yellowCards: int,
    redCards: int)

  datatype Points = Points(total: int, bonus: int)

  /** JavaScript truthiness of a nullable count: present and not zero. */
  predicate CountTruthy(n: Option<int>) {
    n.Some? && n.value != 0
  }

  function PlayingPoints(minutes: int): (r: int)
    ensures r == 2 <==> minutes >= 60
    ensures r == 1 <==> 0 < minutes < 60
    ensures r == 0 <==> minutes <= 0
  {
    if minutes >= 60 then 2 else if minutes > 0 then 1 else 0
  }

  /** Points per goal: 6 for goalkeepers and defenders, 5 for
      midfielders, 4 for every other position letter. */
  function GoalValue(position: string): (r: int)
    ensures 4 <= r <= 6
    ensures r == 6 <==> position == "G" || position == "D"
    ensures r == 5 <==> position == "M"
  {
    if position == "G" then 6 else if position == "D" then 6 else if position == "M" then 5 else 4
  }

  const AssistValue: int := 3
  const YellowCardPenalty: int := 1
  const RedCardPenalty: int := 3

  function CleanSheetValue(position: string): int {
    if position == "G" then 4 else if position == "D" then 4 else if position == "M" then 1 else 0
  }

  /** Conceded goals are not in the API response, so no player is ever
      credited with a clean sheet, whatever the position. */
  function IsCleanSheet(stat: Statistic, position: string): (r: bool)
    ensures !r
  {
    if position != "G" && position != "D" then false else false
  }

  /** calculatePoints, statement by statement. */
  function CalculatePoints(stat: Statistic, position: string): (p: Points)
    ensures p.total == PlayingPoints(stat.minutes)
                     + stat.goals.GetOr(0) * GoalValue(position)
                     + stat.assists.GetOr(0) * AssistValue
                     - stat.yellowCards * YellowCardPenalty
                     - stat.redCards * RedCardPenalty
    ensures p.bonus in {0, 1, 2, 3, 5}
    ensures p.bonus % 2 == 1 <==> stat.goals.GetOr(0) >= 1
  {
    var total := PlayingPoints(stat.minutes);
    var total := if CountTruthy(stat.goals) then total + stat.goals.value * GoalValue(position) else total;
    var total := if CountTruthy(stat.assists) then total + stat.assists.value * 3 else total;
    var total := if IsCleanSheet(stat, position) then total + CleanSheetValue(position) else total;
    var total := total - stat.yellowCards;
    var total := total - stat.redCards * 3;
    var bonus := if CountTruthy(stat.goals) && stat.goals.value >= 2 then 3
                 else if stat.goals == Some(1) then 1
                 else 0;
    var bonus := if CountTruthy(stat.assists) && stat.assists.value >= 2 then bonus + 2 else bonus;
    Points(total, bonus)
  }

  /** The bonus the rule awards for a match: 3 for two or more goals, 1 for
      exactly one, plus 2 for two or more assists. */
  function Bonus(goals: int, assists: int): nat {
    (if goals >= 2 then 3 else if goals == 1 then 1 else 0) + (if assists >= 2 then 2 else 0)
  }

  /** The bonus computed from the nullable counts is the rule's bonus for
      the counts read as zero when null. */
  lemma BonusRule(stat: Statistic, position: string)
    ensures CalculatePoints(stat, position).bonus == Bonus(stat.goals.GetOr(0), stat.assists.GetOr(0))
  {
  }

  /** A null count scores exactly like zero, in the total and in the bonus. */
  lemma NullCountsAsZero(stat: Statistic, position: string)
    ensures CalculatePoints(stat.(goals := None), position) == CalculatePoints(stat.(goals := Some(0)), position)
    ensures CalculatePoints(stat.(assists := None), position) == CalculatePoints(stat.(assists := Some(0)), position)
  {
  }

  /** More goals or assists never lower the total; more cards never raise it. */
  lemma TotalMonotone(stat: Statistic, position: string, goals: int, assists: int, yellow: int, red: int)
    requires stat.goals.GetOr(0) <= goals && stat.assists.GetOr(0) <= assists
    requires yellow <= stat.yellowCards && red <= stat.redCards
    ensures CalculatePoints(stat, position).total
         <= CalculatePoints(stat.(goals := Some(goals), assists := Some(assists),
                                  yellowCards := yellow, redCards := red), position).total
  {
    var d := goals - stat.goals.GetOr(0);
    var e := assists - stat.assists.GetOr(0);
    assert goals * GoalValue(position) == stat.goals.GetOr(0) * GoalValue(position) + d * GoalValue(position);
    assert assists * AssistValue == stat.assists.GetOr(0) * AssistValue + e * AssistValue;
    assert d * GoalValue(position) >= 0;
  }

  /** One scoring event of a match, as an independent description of the
      rule: each event is worth a fixed number of points for a position. */
  datatype Event = Goal | Assist | YellowCard | RedCard

  function EventValue(e: Event, position: string): int {
    match e
    case Goal => GoalValue(position)
    case Assist => AssistValue
    case YellowCard => -YellowCardPenalty
    case RedCard => -RedCardPenalty
  }

  /** The points of a list of events, event by event. */
  function Tally(events: seq<Event>, position: string): int {
    if |events| == 0 then 0 else Tally(events[..|events| - 1], position) + EventValue(events[|events| - 1], position)
  }

  function Occurrences(events: seq<Event>, e: Event): nat {
    if |events| == 0 then 0
    else Occurrences(events[..|events| - 1], e) + (if events[|events| - 1] == e then 1 else 0)
  }

  /** The statistic an event list produces. */
  function StatisticOf(minutes: int, position: string, events: seq<Event>): Statistic {
    Statistic(minutes, position, Some(Occurrences(events, Goal)), Some(Occurrences(events, Assist)),
              Occurrences(events, YellowCard), Occurrences(events, RedCard))
  }

  lemma {:induction false} TallyByCounts(events: seq<Event>, position: string)
    ensures Tally(events, position)
         == Occurrences(events, Goal) * GoalValue(position)
          + Occurrences(events, Assist) * AssistValue
          - Occurrences(events, YellowCard) * YellowCardPenalty
          - Occurrences(events, RedCard) * RedCardPenalty
  {
    if |events| > 0 {
      TallyByCounts(events[..|events| - 1], position);
    }
  }

  /** calculatePoints agrees with scoring the match event by event: the
      total is the playing points plus the value of every goal, assist and
      card, in any order. */
  lemma PointsAreSumOfEvents(minutes: int, position: string, events: seq<Event>)
    ensures CalculatePoints(StatisticOf(minutes, position, events), position).total
         == PlayingPoints(minutes) + Tally(events, position)
  {
    TallyByCounts(events, position);
  }

  /** One player of an API response, with the statistics entries the API
      gives for them. */
  datatype PlayerStats = PlayerStats(playerId: int, statistics: seq<Statistic>)

  /** One element of the response array: a team and its players. */
  datatype TeamStats = TeamStats(teamId: int, players: seq<PlayerStats>)

  /** The values written to player_performances. */
  datatype PerformanceRow = PerformanceRow(
    playerId: int,
    matchId: int,
    gameweekId: int,
    minutesPlayed: int,
    goals: int,
    assists: int,
    cleanSheet: bool,
    yellowCards: int,
    redCards: int,
    saves: int,
    bonusPoints: int,
    totalPoints: int)

  const PlayerStatsNotFound: string := "Player stats not found in API response"
  const StatisticsNotFound: string := "Player statistics not found in API response"

  /** The first player with the given id, as JavaScript's `find`. */
  function FindPlayer(players: seq<PlayerStats>, playerId: int): (r: Option<nat>)
    ensures r.None? <==> forall i :: 0 <= i < |players| ==> players[i].playerId != playerId
    ensures r.Some? ==> r.value < |players| && players[r.value].playerId == playerId
                        && forall j :: 0 <= j < r.value ==> players[j].playerId != playerId
  {
    if |players| == 0 then None
    else if players[0].playerId == playerId then Some(0)
    else
      match FindPlayer(players[1..], playerId)
      case None => None
      case Some(k) => Some(k + 1)
  }

  /** storePlayerPerformance without the database: only the first team of
      the response is searched, the first statistics entry of the player is
      used, and the row written is returned. */
  function PerformanceOf(playerId: int, matchId: int, gameweekId: int, response: seq<TeamStats>)
    : (r: Result<PerformanceRow, string>)
    ensures r == Failure(PlayerStatsNotFound) <==>
              |response| == 0 || forall i :: 0 <= i < |response[0].players| ==> response[0].players[i].playerId != playerId
    ensures r == Failure(StatisticsNotFound) <==>
              |response| > 0 && exists i :: 0 <= i < |response[0].players| && response[0].players[i].playerId == playerId
                                            && (forall j :: 0 <= j < i ==> response[0].players[j].playerId != playerId)
                                            && |response[0].players[i].statistics| == 0
    ensures r.Success? ==>
              exists i :: 0 <= i < |response[0].players| && response[0].players[i].playerId == playerId
                          && |response[0].players[i].statistics| > 0
                          && RowFor(playerId, matchId, gameweekId, response[0].players[i].statistics[0], r.value)
  {
    if |response| == 0 then Failure(PlayerStatsNotFound)
    else
      match FindPlayer(response[0].players, playerId)
      case None => Failure(PlayerStatsNotFound)
      case Some(i) =>
        var stats := response[0].players[i].statistics;
        if |stats| == 0 then Failure(StatisticsNotFound)
        else
          var stat := stats[0];
          var points := CalculatePoints(stat, stat.position);
          BonusRule(stat, stat.position);
          Success(PerformanceRow(playerId, matchId, gameweekId, stat.minutes,
                                 stat.goals.GetOr(0), stat.assists.GetOr(0),
                                 IsCleanSheet(stat, stat.position),
                                 stat.yellowCards, stat.redCards, 0, points.bonus, points.total))
  }

  /** What the stored row says about a statistics entry, stated through the
      rule's properties rather than its statements: null counts stored as
      zero, never a clean sheet, no saves, the bonus the rule awards for the
      stored counts and the total scored for the entry's own position. */
  ghost predicate RowFor(playerId: int, matchId: int, gameweekId: int, stat: Statistic, row: PerformanceRow) {
    && row.playerId == playerId && row.matchId == matchId && row.gameweekId == gameweekId
    && row.minutesPlayed == stat.minutes
    && row.goals == stat.goals.GetOr(0) && row.assists == stat.assists.GetOr(0)
    && !row.cleanSheet && row.saves == 0
    && row.yellowCards == stat.yellowCards && row.redCards == stat.redCards
    && row.totalPoints == PlayingPoints(stat.minutes) + row.goals * GoalValue(stat.position)
                          + row.assists * AssistValue - row.yellowCards - row.redCards * RedCardPenalty
    && row.bonusPoints == Bonus(row.goals, row.assists)
  }
}
