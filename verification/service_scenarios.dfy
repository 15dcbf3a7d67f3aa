/** Worked additions on small concrete stores, and the partial write the
    sequential commit allows. */
module ServiceScenarios {
  import opened Wrappers
  import opened Roster
  import opened Service
  import opened ServiceProperties

  const Owner: int := 7
  const Club: int := 100

  function Forward(price: Cents): Player {
    Player("First", "Last", Club, "FWD", price, 0)
  }

  /** A team with 20.00 to spend, an empty selection and gameweek 5 current. */
  function Start(): Store {
    Store(map[1 := FantasyTeam(Owner, "Team", 2000, 0)],
          map[10 := Forward(850), 11 := Forward(500), 12 := Forward(100), 13 := Forward(100)],
          map[Club := "Valur"],
          [], 1, Some(5))
  }

  /** A forward at 8.50 is accepted and leaves 11.50 and one selected player. */
  lemma FirstForwardAccepted()
    ensures var o := AddPlayerToTeam(Start(), Faults(false, false), 1, 10, Owner, false, false, false);
            && o.result == Success(TeamSelection(1, 1, 5, 10, false, false, false))
            && o.store.teams[1].budget == 1150
            && |RosterOf(o.store, 1)| == 1
  {
    var o := AddPlayerToTeam(Start(), Faults(false, false), 1, 10, Owner, false, false, false);
    assert CheckComposition(Forward(850), RosterOf(Start(), 1)).None?;
    assert o.store.selections == [TeamSelection(1, 1, 5, 10, false, false, false)];
  }

  /** A team that already holds three forwards. */
  function ThreeForwards(): Store {
    Start().(selections := [TeamSelection(1, 1, 5, 11, false, false, false),
                            TeamSelection(2, 1, 5, 12, false, false, false),
                            TeamSelection(3, 1, 5, 13, false, false, false)],
             nextSelectionId := 4)
  }

  /** A fourth forward is refused with the forward cap, although the club
      cap is reached as well: the position check comes first. */
  lemma FourthForwardRefused()
    ensures AddPlayerToTeam(ThreeForwards(), Faults(false, false), 1, 10, Owner, false, false, false).result
         == Failure(Rejected(PositionLimitReached("FWD", 3)))
  {
    var e := RosterEntry("FWD", Club, Some("Valur"));
    ThreeForwardsSelection();
    ThreeOfAKind(e);
    PositionCapRefuses(ThreeForwards(), Faults(false, false), 1, 10, Owner, false, false, false);
  }

  lemma ThreeForwardsSelection()
    ensures RosterOf(ThreeForwards(), 1) == [RosterEntry("FWD", Club, Some("Valur")),
                                             RosterEntry("FWD", Club, Some("Valur")),
                                             RosterEntry("FWD", Club, Some("Valur"))]
  {
    var s := ThreeForwards();
    var rows := s.selections;
    var e := RosterEntry("FWD", Club, Some("Valur"));
    assert rows[..0] == [];
    assert RosterOfRows(rows[..1], s.players, s.clubNames, 1) == [e] by {
      assert rows[..1][..0] == [];
    }
    assert RosterOfRows(rows[..2], s.players, s.clubNames, 1) == [e, e] by {
      assert rows[..2][..1] == rows[..1];
    }
    assert rows[..3][..2] == rows[..2];
    assert rows[..3] == rows;
  }

  lemma ThreeOfAKind(e: RosterEntry)
    ensures CountPosition([e, e, e], e.position) == 3
  {
    var p := e.position;
    assert [e][..0] == [];
    assert CountPosition([e], p) == 1;
    assert [e, e][..1] == [e];
    assert CountPosition([e, e], p) == 2;
    assert [e, e, e][..2] == [e, e];
  }

  /** A budget of 3.00 refuses a player priced 5.00, naming both amounts,
      and the selection is unchanged. */
  lemma ShortBudgetRefused()
    ensures var s := Start().(teams := map[1 := FantasyTeam(Owner, "Team", 300, 0)]);
            var o := AddPlayerToTeam(s, Faults(false, false), 1, 11, Owner, false, false, false);
            o.result == Failure(Rejected(InsufficientBudget(300, 500))) && o.store == s
  {
  }

  /** The same player cannot be selected twice for a gameweek: the second
      attempt is refused by selectPlayer and writes nothing. */
  lemma DuplicateSelectionRefused()
    ensures var s := Start().(selections := [TeamSelection(1, 1, 5, 10, false, false, false)], nextSelectionId := 2);
            var o := AddPlayerToTeam(s, Faults(false, false), 1, 10, Owner, true, false, false);
            o.result == Failure(SelectFailed(DuplicateSelection)) && o.store == s
  {
    var s := Start().(selections := [TeamSelection(1, 1, 5, 10, false, false, false)], nextSelectionId := 2);
    assert RosterOf(s, 1) == [RosterEntry("FWD", Club, Some("Valur"))];
    assert CheckComposition(Forward(850), RosterOf(s, 1)).None?;
    assert HasSelection(s, 1, 5, 10);
  }

  /** As written, a failed budget update after a successful selectPlayer
      leaves the new row in place with the budget not debited: the player
      is on the team for free and the team's budget plus spending grows by
      the price. */
  lemma SequentialCommitPartialWrite()
    ensures var o := AddPlayerToTeamAsWritten(Start(), Faults(false, true), 1, 10, Owner, false, false, false);
            && o.result == Failure(BudgetUpdateFailed)
            && o.store.selections == [TeamSelection(1, 1, 5, 10, false, false, false)]
            && o.store.teams[1].budget == 2000
            && Ledger(o.store, 1) == Ledger(Start(), 1) + 850
  {
    var o := AddPlayerToTeamAsWritten(Start(), Faults(false, true), 1, 10, Owner, false, false, false);
    assert CheckComposition(Forward(850), RosterOf(Start(), 1)).None?;
    assert o.store.selections == [TeamSelection(1, 1, 5, 10, false, false, false)];
    assert Spent(o.store.selections, o.store.players, 1) == 850 by {
      assert o.store.selections[..0] == [];
    }
  }
}
