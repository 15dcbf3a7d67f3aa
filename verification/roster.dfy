/** The fantasy-roster data model and the composition rules applied when a
    player is added to a fantasy team (src/services/fantasyTeamService.ts).
    Amounts of money are integer cents: the columns are DECIMAL(10,2). */
module Roster {
  import opened Wrappers
  import Text

  type Cents = int

  /** A fantasy team as the repository returns it; its id is the key under
      which the store holds it. */
  datatype FantasyTeam = FantasyTeam(
    userId: int,
    name: string,
    budget: Cents,
    totalPoints: int)

  /** A real-world player, keyed by id in the store; `position` is free
      text in the database (VARCHAR(20)), one of "GK", "DEF", "MID", "FWD"
      when it is valid. */
  datatype Player = Player(
    firstName: string,
    lastName: string,
    clubId: int,
    position: string,
    price: Cents,
    totalPoints: int)

  /** One row of the current selection as the roster checks read it: the
      selected player's position, real-world club and that club's name,
      which may be missing. */
  datatype RosterEntry = RosterEntry(position: string, clubId: int, clubName: Option<string>)

  const Positions: seq<string> := ["GK", "DEF", "MID", "FWD"]
  const TeamLimit: nat := 3
  const SquadLimit: nat := 15

  /** The per-position caps; `None` for a position outside the table. */
  function PositionLimit(position: string): (r: Option<nat>)
    ensures r.Some? <==> position in Positions
    ensures position == "GK" ==> r == Some(2)
    ensures position == "DEF" ==> r == Some(5)
    ensures position == "MID" ==> r == Some(5)
    ensures position == "FWD" ==> r == Some(3)
  {
    if position == "GK" then Some(2)
    else if position == "DEF" then Some(5)
    else if position == "MID" then Some(5)
    else if position == "FWD" then Some(3)
    else None
  }

  /** The caps of the four positions add up to the squad limit, which is
      why a roster that respects every position cap never fills the squad
      before a position is full. */
  lemma PositionLimitsSumToSquadLimit()
    ensures PositionLimit("GK").value + PositionLimit("DEF").value
          + PositionLimit("MID").value + PositionLimit("FWD").value == SquadLimit
  {
  }

  function CountPosition(roster: seq<RosterEntry>, position: string): (n: nat)
    ensures n <= |roster|
  {
    if |roster| == 0 then 0
    else CountPosition(roster[..|roster| - 1], position)
         + (if roster[|roster| - 1].position == position then 1 else 0)
  }

  function CountClub(roster: seq<RosterEntry>, clubId: int): (n: nat)
    ensures n <= |roster|
  {
    if |roster| == 0 then 0
    else CountClub(roster[..|roster| - 1], clubId)
         + (if roster[|roster| - 1].clubId == clubId then 1 else 0)
  }

  /** Counting is the same as cardinality of the set of matching indices. */
  lemma {:induction false} CountPositionIsIndexCount(roster: seq<RosterEntry>, position: string)
    ensures CountPosition(roster, position)
         == |set i | 0 <= i < |roster| && roster[i].position == position|
  {
    if |roster| > 0 {
      var init := roster[..|roster| - 1];
      CountPositionIsIndexCount(init, position);
      var a := set i | 0 <= i < |init| && init[i].position == position;
      var b := set i | 0 <= i < |roster| && roster[i].position == position;
      if roster[|roster| - 1].position == position {
        assert b == a + {|roster| - 1};
      } else {
        assert b == a;
      }
    }
  }

  /** The same for clubs: the count is the number of entries from the club. */
  lemma {:induction false} CountClubIsIndexCount(roster: seq<RosterEntry>, clubId: int)
    ensures CountClub(roster, clubId)
         == |set i | 0 <= i < |roster| && roster[i].clubId == clubId|
  {
    if |roster| > 0 {
      var init := roster[..|roster| - 1];
      CountClubIsIndexCount(init, clubId);
      var a := set i | 0 <= i < |init| && init[i].clubId == clubId;
      var b := set i | 0 <= i < |roster| && roster[i].clubId == clubId;
      if roster[|roster| - 1].clubId == clubId {
        assert b == a + {|roster| - 1};
      } else {
        assert b == a;
      }
    }
  }

  lemma {:induction false} CountPositionAppend(roster: seq<RosterEntry>, e: RosterEntry, position: string)
    ensures CountPosition(roster + [e], position)
         == CountPosition(roster, position) + (if e.position == position then 1 else 0)
  {
    assert (roster + [e])[..|roster + [e]| - 1] == roster;
  }

  lemma {:induction false} CountClubAppend(roster: seq<RosterEntry>, e: RosterEntry, clubId: int)
    ensures CountClub(roster + [e], clubId)
         == CountClub(roster, clubId) + (if e.clubId == clubId then 1 else 0)
  {
    assert (roster + [e])[..|roster + [e]| - 1] == roster;
  }

  /** The name the team-limit error reports: that of the first entry from
      the given club, as JavaScript's `find` returns it. */
  function FirstClubName(roster: seq<RosterEntry>, clubId: int): (r: Option<Option<string>>)
    ensures r.None? <==> (forall i :: 0 <= i < |roster| ==> roster[i].clubId != clubId)
    ensures r.Some? ==> exists i :: 0 <= i < |roster| && roster[i].clubId == clubId
                                   && r.value == roster[i].clubName
                                   && forall j :: 0 <= j < i ==> roster[j].clubId != clubId
  {
    if |roster| == 0 then None
    else if roster[0].clubId == clubId then Some(roster[0].clubName)
    else
      var r := FirstClubName(roster[1..], clubId);
      assert forall i :: 1 <= i < |roster| ==> roster[i] == roster[1..][i - 1];
      if r.Some? then
        var k :| 0 <= k < |roster[1..]| && roster[1..][k].clubId == clubId
                 && r.value == roster[1..][k].clubName
                 && forall j :: 0 <= j < k ==> roster[1..][j].clubId != clubId;
        assert roster[k + 1].clubId == clubId && forall j :: 0 <= j < k + 1 ==> roster[j].clubId != clubId;
        r
      else r
  }

  /** A JavaScript value is truthy for a string only when it is present
      and non-empty. */
  predicate NameTruthy(name: Option<Option<string>>) {
    name.Some? && name.value.Some? && name.value.value != ""
  }

  /** Why an addition is refused by the composition checks. */
  datatype Violation =
    | InsufficientBudget(available: Cents, required: Cents)
    | PositionLimitNotFound
    | PositionLimitReached(position: string, limit: nat)
    | TeamNameNotFound
    | TeamLimitReached(teamName: string, limit: nat)
    | SquadFull(limit: nat)

  /** The message each error class carries. Amounts are printed as the
      JavaScript numbers they stand for. */
  function Message(v: Violation): string {
    match v
    case InsufficientBudget(available, required) =>
      "Insufficient budget: Available budget is " + Text.FormatCents(available)
        + ", required budget is " + Text.FormatCents(required)
    case PositionLimitNotFound => "Position limit not found"
    case PositionLimitReached(position, limit) =>
      "Maximum " + position + " players (" + Text.NatToString(limit) + ") already selected"
    case TeamNameNotFound => "Team name not found"
    case TeamLimitReached(teamName, limit) =>
      "Maximum players from " + teamName + " (" + Text.NatToString(limit) + ") already selected"
    case SquadFull(limit) => "Maximum squad size (" + Text.NatToString(limit) + ") reached"
  }

  /** The violations the checks can actually produce: a position-limit
      error always names one of the four positions. */
  predicate Reportable(v: Violation) {
    v.PositionLimitReached? ==> v.position in Positions
  }

  function KindOf(v: Violation): nat {
    match v
    case InsufficientBudget(_, _) => 0
    case PositionLimitNotFound => 1
    case PositionLimitReached(_, _) => 2
    case TeamNameNotFound => 3
    case TeamLimitReached(_, _) => 4
    case SquadFull(_) => 5
  }

  /** The first character of every message, and the ninth of the three
      that start with "Maximum ", which together tell the kinds apart. */
  function Signature(v: Violation): (char, char) {
    match v
    case InsufficientBudget(_, _) => ('I', ' ')
    case PositionLimitNotFound => ('P', ' ')
    case PositionLimitReached(position, _) => ('M', if |position| > 0 then position[0] else ' ')
    case TeamNameNotFound => ('T', ' ')
    case TeamLimitReached(_, _) => ('M', 'p')
    case SquadFull(_) => ('M', 's')
  }

  lemma MessageSignature(v: Violation)
    requires Reportable(v)
    ensures |Message(v)| > 8
    ensures Message(v)[0] == Signature(v).0
    ensures Signature(v).0 == 'M' ==> Message(v)[8] == Signature(v).1
  {
    match v
    case PositionLimitReached(position, limit) => PositionLimitSignature(position, limit);
    case TeamLimitReached(teamName, limit) => TeamLimitSignature(teamName, limit);
    case SquadFull(limit) => SquadFullSignature(limit);
    case InsufficientBudget(a, r) => BudgetSignature(a, r);
    case PositionLimitNotFound =>
    case TeamNameNotFound =>
  }

  lemma PositionLimitSignature(position: string, limit: nat)
    requires |position| > 0
    ensures var m := Message(PositionLimitReached(position, limit));
            |m| > 8 && m[0] == 'M' && m[8] == position[0]
  {
    var head := "Maximum " + position;
    assert head[8] == position[0];
    assert Message(PositionLimitReached(position, limit))
        == head + (" players (" + Text.NatToString(limit) + ") already selected");
  }

  lemma TeamLimitSignature(teamName: string, limit: nat)
    ensures var m := Message(TeamLimitReached(teamName, limit));
            |m| > 8 && m[0] == 'M' && m[8] == 'p'
  {
    var head := "Maximum players from ";
    assert Message(TeamLimitReached(teamName, limit))
        == head + (teamName + " (" + Text.NatToString(limit) + ") already selected");
  }

  lemma SquadFullSignature(limit: nat)
    ensures var m := Message(SquadFull(limit));
            |m| > 8 && m[0] == 'M' && m[8] == 's'
  {
    var head := "Maximum squad size (";
    assert Message(SquadFull(limit)) == head + (Text.NatToString(limit) + ") reached");
  }

  lemma BudgetSignature(available: Cents, required: Cents)
    ensures var m := Message(InsufficientBudget(available, required));
            |m| > 8 && m[0] == 'I'
  {
    var head := "Insufficient budget: Available budget is ";
    var m1 := head + Text.FormatCents(available);
    var m2 := m1 + ", required budget is ";
    assert Message(InsufficientBudget(available, required)) == m2 + Text.FormatCents(required);
    HeadChar(head, Text.FormatCents(available), 0);
    HeadChar(m1, ", required budget is ", 0);
    HeadChar(m2, Text.FormatCents(required), 0);
  }

  /** Appending leaves the characters of the first part in place. */
  lemma HeadChar(head: string, rest: string, k: nat)
    requires k < |head|
    ensures |head + rest| > k && (head + rest)[k] == head[k]
  {
  }

  /** Every kind of refusal has its own message, so a caller can tell the
      reason apart from the text alone. */
  lemma MessagesDistinguishKinds(v: Violation, w: Violation)
    requires Reportable(v) && Reportable(w)
    requires KindOf(v) != KindOf(w)
    ensures Message(v) != Message(w)
  {
    MessageSignature(v);
    MessageSignature(w);
    SignaturesDiffer(v, w);
  }

  lemma SignaturesDiffer(v: Violation, w: Violation)
    requires Reportable(v) && Reportable(w)
    requires KindOf(v) != KindOf(w)
    ensures Signature(v) != Signature(w)
  {
    if v.PositionLimitReached? {
      PositionInitial(v.position);
    }
    if w.PositionLimitReached? {
      PositionInitial(w.position);
    }
  }

  lemma PositionInitial(position: string)
    requires position in Positions
    ensures |position| > 0 && position[0] != 'p' && position[0] != 's'
  {
  }

  lemma PositionMessageExample()
    ensures Message(PositionLimitReached("FWD", 3)) == "Maximum " + "FWD" + " players (" + "3" + ") already selected"
  {
    assert Text.NatToString(3) == "3";
  }

  lemma BudgetMessageExample()
    ensures Message(InsufficientBudget(300, 500))
         == "Insufficient budget: Available budget is " + "3" + ", required budget is " + "5"
  {
    assert Text.FormatCents(300) == "3";
    assert Text.FormatCents(500) == "5";
  }

  /** The budget check: the team's budget must cover the price. */
  function CheckBudget(budget: Cents, player: Player): (r: Option<Violation>)
    ensures r.Some? <==> budget < player.price
    ensures r.Some? ==> r.value == InsufficientBudget(budget, player.price)
  {
    if budget < player.price then Some(InsufficientBudget(budget, player.price)) else None
  }

  /** The position, club and squad checks on the current selection, in
      that order; `None` when all three pass. */
  function CheckComposition(player: Player, roster: seq<RosterEntry>): (r: Option<Violation>)
    ensures r.None? <==>
      && player.position in Positions
      && CountPosition(roster, player.position) < PositionLimit(player.position).value
      && CountClub(roster, player.clubId) < TeamLimit
      && |roster| < SquadLimit
  {
    var limit := PositionLimit(player.position);
    if limit.None? then Some(PositionLimitNotFound)
    else if CountPosition(roster, player.position) >= limit.value then
      Some(PositionLimitReached(player.position, limit.value))
    else if CountClub(roster, player.clubId) >= TeamLimit then
      var name := FirstClubName(roster, player.clubId);
      if !NameTruthy(name) then Some(TeamNameNotFound)
      else Some(TeamLimitReached(name.value.value, TeamLimit))
    else if |roster| >= SquadLimit then Some(SquadFull(SquadLimit))
    else None
  }

  /** A selection that respects every cap and holds only known positions. */
  ghost predicate WithinQuotas(roster: seq<RosterEntry>) {
    && (forall i :: 0 <= i < |roster| ==> roster[i].position in Positions)
    && (forall p :: p in Positions ==> CountPosition(roster, p) <= PositionLimit(p).value)
    && (forall i :: 0 <= i < |roster| ==> CountClub(roster, roster[i].clubId) <= TeamLimit)
    && |roster| <= SquadLimit
  }

  lemma {:induction false} SizeIsSumOfPositionCounts(roster: seq<RosterEntry>)
    requires forall i :: 0 <= i < |roster| ==> roster[i].position in Positions
    ensures |roster| == CountPosition(roster, "GK") + CountPosition(roster, "DEF")
                      + CountPosition(roster, "MID") + CountPosition(roster, "FWD")
  {
    if |roster| > 0 {
      var init := roster[..|roster| - 1];
      assert forall i :: 0 <= i < |init| ==> init[i] == roster[i];
      SizeIsSumOfPositionCounts(init);
      assert roster[|roster| - 1].position in Positions;
    }
  }

  /** With every position within its cap and the candidate's position
      below its cap, the selection has at most 14 players, so the squad
      check cannot be the one that refuses the candidate. */
  lemma SquadCheckUnreachable(player: Player, roster: seq<RosterEntry>)
    requires forall i :: 0 <= i < |roster| ==> roster[i].position in Positions
    requires forall p :: p in Positions ==> CountPosition(roster, p) <= PositionLimit(p).value
    requires player.position in Positions
    requires CountPosition(roster, player.position) < PositionLimit(player.position).value
    ensures |roster| < SquadLimit
  {
    SizeIsSumOfPositionCounts(roster);
    CountsWithinCaps(roster);
    if player.position == "GK" {
      assert CountPosition(roster, "GK") < 2;
    } else if player.position == "DEF" {
      assert CountPosition(roster, "DEF") < 5;
    } else if player.position == "MID" {
      assert CountPosition(roster, "MID") < 5;
    } else {
      assert CountPosition(roster, "FWD") < 3;
    }
  }

  lemma CountsWithinCaps(roster: seq<RosterEntry>)
    requires forall p :: p in Positions ==> CountPosition(roster, p) <= PositionLimit(p).value
    ensures CountPosition(roster, "GK") <= 2 && CountPosition(roster, "DEF") <= 5
    ensures CountPosition(roster, "MID") <= 5 && CountPosition(roster, "FWD") <= 3
  {
    assert "GK" in Positions && "DEF" in Positions && "MID" in Positions && "FWD" in Positions;
  }

  /** When every entry from the candidate's club carries a non-empty club
      name, the "Team name not found" branch is never taken: reaching the
      club cap implies that such an entry exists. */
  lemma TeamNameAlwaysFound(player: Player, roster: seq<RosterEntry>)
    requires forall i :: 0 <= i < |roster| && roster[i].clubId == player.clubId ==>
               roster[i].clubName.Some? && roster[i].clubName.value != ""
    ensures CheckComposition(player, roster) != Some(TeamNameNotFound)
  {
    if CountClub(roster, player.clubId) >= TeamLimit {
      ClubCountPositiveHasMember(roster, player.clubId);
    }
  }

  lemma {:induction false} ClubCountPositiveHasMember(roster: seq<RosterEntry>, clubId: int)
    requires CountClub(roster, clubId) > 0
    ensures exists i :: 0 <= i < |roster| && roster[i].clubId == clubId
  {
    var init := roster[..|roster| - 1];
    if roster[|roster| - 1].clubId != clubId {
      ClubCountPositiveHasMember(init, clubId);
      var i :| 0 <= i < |init| && init[i].clubId == clubId;
      assert roster[i] == init[i];
    }
  }

  /** The entry a newly selected player contributes to the selection. */
  function EntryOf(player: Player, clubName: Option<string>): RosterEntry {
    RosterEntry(player.position, player.clubId, clubName)
  }

  /** Adding a player who passed the composition checks keeps a selection
      within its quotas. */
  lemma AcceptedAdditionKeepsQuotas(player: Player, clubName: Option<string>, roster: seq<RosterEntry>)
    requires WithinQuotas(roster)
    requires CheckComposition(player, roster).None?
    ensures WithinQuotas(roster + [EntryOf(player, clubName)])
  {
    var e := EntryOf(player, clubName);
    var r := roster + [e];
    forall p | p in Positions
      ensures CountPosition(r, p) <= PositionLimit(p).value
    {
      CountPositionAppend(roster, e, p);
    }
    forall i | 0 <= i < |r|
      ensures CountClub(r, r[i].clubId) <= TeamLimit
    {
      CountClubAppend(roster, e, r[i].clubId);
    }
  }
}
