/** team_bot_v4.5.py: the later FootballPlayBot. It keeps the last team
    announcement so that a press on a closed list can show it again, checks
    the day before the open list, and splits the teams by plain alternation
    with no capacity guard. */
module TeamBotV45 {
  import opened Text
  import opened Sequences
  import opened Roster
  import opened Ranking
  import opened PlayerList

  const AlreadyInProgress := "A play list is already in progress!"
  const Cancelled := "Play cancelled for today."
  const BlackTitle := "Team Black:"
  const WhiteTitle := "Team White:"

  /** The two teams `create_balanced_teams` returns, for the +1 entries in the
      order `shuffled` puts them: the sorted main players alternate Black,
      White, Black, ..., and then the +1 entries alternate the same way,
      starting again with Black. */
  function BalancedTeams(players: seq<Player>, shuffled: seq<Player>): (seq<Player>, seq<Player>) {
    var sorted := SortByRatingDesc(Mains(players));
    (Evens(sorted) + Evens(shuffled), Odds(sorted) + Odds(shuffled))
  }

  /** Adding one more entry to an alternation puts it on the side its position says. */
  lemma {:induction false} AlternateStep(s: seq<Player>, i: nat)
    requires i < |s|
    ensures Evens(s[..i + 1]) == Evens(s[..i]) + (if i % 2 == 0 then [s[i]] else [])
    ensures Odds(s[..i + 1]) == Odds(s[..i]) + (if i % 2 == 1 then [s[i]] else [])
  {
    assert s[..i + 1][..i] == s[..i];
  }

  /** One of the two indexed loops: entry i of `s` joins Team Black when i
      is even and Team White when i is odd. */
  method Deal(black0: seq<Player>, white0: seq<Player>, s: seq<Player>) returns (black: seq<Player>, white: seq<Player>)
    ensures black == black0 + Evens(s) && white == white0 + Odds(s)
  {
    black, white := black0, white0;
    for i := 0 to |s|
      invariant black == black0 + Evens(s[..i]) && white == white0 + Odds(s[..i])
    {
      AlternateStep(s, i);
      if i % 2 == 0 {
        AppendAssociates(black0, Evens(s[..i]), [s[i]]);
        black := black + [s[i]];
      } else {
        AppendAssociates(white0, Odds(s[..i]), [s[i]]);
        white := white + [s[i]];
      }
    }
    assert s[..|s|] == s;
  }

  /** `create_balanced_teams`, with the shuffled +1 entries given by the caller:
      the main players are dealt first, then the +1 entries. */
  method CreateBalancedTeams(players: seq<Player>, shuffled: seq<Player>) returns (black: seq<Player>, white: seq<Player>)
    ensures (black, white) == BalancedTeams(players, shuffled)
  {
    var sortedMain := SortByRatingDesc(Mains(players));
    black, white := Deal([], [], sortedMain);
    assert black == Evens(sortedMain) && white == Odds(sortedMain);
    black, white := Deal(black, white, shuffled);
  }

  /** With m main players and p +1 entries, Team Black gets ceil(m/2) + ceil(p/2)
      of them and Team White floor(m/2) + floor(p/2), and together the teams
      are the roster, whatever the order of the +1 entries. */
  lemma {:induction false} TeamSizes(players: seq<Player>, shuffled: seq<Player>)
    requires multiset(shuffled) == multiset(PlusOnes(players))
    ensures var teams := BalancedTeams(players, shuffled);
      var m := |Mains(players)|;
      var p := |PlusOnes(players)|;
      |teams.0| == (m + 1) / 2 + (p + 1) / 2 && |teams.1| == m / 2 + p / 2
      && multiset(teams.0 + teams.1) == multiset(players)
  {
    var sorted := SortByRatingDesc(Mains(players));
    MainsPlusOnesPartition(players);
    AlternatedHalves(sorted, shuffled, Mains(players), PlusOnes(players));
  }

  /** Dealing two lists alternately keeps every entry of both and gives the
      first side the rounded-up halves. */
  lemma {:induction false} AlternatedHalves(sorted: seq<Player>, shuffled: seq<Player>, mains: seq<Player>, plusOnes: seq<Player>)
    requires multiset(sorted) == multiset(mains) && multiset(shuffled) == multiset(plusOnes)
    ensures |Evens(sorted) + Evens(shuffled)| == (|mains| + 1) / 2 + (|plusOnes| + 1) / 2
    ensures |Odds(sorted) + Odds(shuffled)| == |mains| / 2 + |plusOnes| / 2
    ensures multiset((Evens(sorted) + Evens(shuffled)) + (Odds(sorted) + Odds(shuffled)))
         == multiset(mains) + multiset(plusOnes)
  {
    assert |sorted| == |mains| by {
      assert |sorted| == |multiset(sorted)| == |multiset(mains)|;
    }
    assert |shuffled| == |plusOnes| by {
      assert |shuffled| == |multiset(shuffled)| == |multiset(plusOnes)|;
    }
    EvensOddsPermutation(sorted);
    EvensOddsPermutation(shuffled);
  }

  /** Nothing enforces six a side: a full roster of twelve splits six and six
      exactly when the number of main players is even, and seven against five
      when it is odd. */
  lemma {:induction false} FullRosterSixSixIffEvenMains(players: seq<Player>, shuffled: seq<Player>)
    requires |players| == MaxPlayers
    requires multiset(shuffled) == multiset(PlusOnes(players))
    ensures var teams := BalancedTeams(players, shuffled);
      (|teams.0| == TeamSize && |teams.1| == TeamSize) <==> |Mains(players)| % 2 == 0
    ensures var teams := BalancedTeams(players, shuffled);
      |Mains(players)| % 2 == 1 ==> |teams.0| == TeamSize + 1 && |teams.1| == TeamSize - 1
  {
    var teams := BalancedTeams(players, shuffled);
    var m, p := |Mains(players)|, |PlusOnes(players)|;
    TeamSizes(players, shuffled);
    MainsPlusOnesPartition(players);
    FullRosterSizes(m, p, |teams.0|, |teams.1|);
  }

  /** The arithmetic of a full roster with m main players and p +1 entries,
      dealt b to Team Black and w to Team White. */
  lemma {:induction false} FullRosterSizes(m: nat, p: nat, b: nat, w: nat)
    requires m + p == MaxPlayers
    requires b == (m + 1) / 2 + (p + 1) / 2 && w == m / 2 + p / 2
    ensures (b == TeamSize && w == TeamSize) <==> m % 2 == 0
    ensures m % 2 == 1 ==> b == TeamSize + 1 && w == TeamSize - 1
  {
    if m % 2 == 0 {
      assert p % 2 == 0;
      assert (m + 1) / 2 == m / 2 && (p + 1) / 2 == p / 2;
    } else {
      assert p % 2 == 1;
      assert (m + 1) / 2 == m / 2 + 1 && (p + 1) / 2 == p / 2 + 1;
    }
  }

  /** Every entry is rated 5 and the sort is stable, so the main players are
      split in the order they joined: Team Black gets main players 0, 2, 4, ...
      and Team White 1, 3, 5, ..., each followed by its share of +1 entries. */
  lemma {:induction false} DraftsInJoinOrder(players: seq<Player>, shuffled: seq<Player>)
    requires DefaultRated(players)
    ensures BalancedTeams(players, shuffled)
         == (Evens(Mains(players)) + Evens(shuffled), Odds(Mains(players)) + Odds(shuffled))
  {
    var mains := Mains(players);
    forall i | 0 <= i < |mains| ensures mains[i].rating == DefaultRating {
      assert mains[i] in players;
    }
    SortKeepsEqualRatingsInOrder(mains, DefaultRating);
  }

  /** A team member's line: a dash, the name, a space, then "(+1)" for a +1
      entry and nothing for a regular one, which so keeps a trailing space. */
  function TeamLine(p: Player): string {
    "- " + p.username + " " + (if p.isPlusOne then "(+1)" else "")
  }

  function TeamLines(team: seq<Player>): seq<string> {
    seq(|team|, i requires 0 <= i < |team| => TeamLine(team[i]))
  }

  /** A team line tells the name and whether the entry is a +1: a +1 line
      ends in ")", a regular line in the trailing space. */
  lemma {:induction false} TeamLineInjective(p: Player, q: Player)
    requires TeamLine(p) == TeamLine(q)
    ensures p.username == q.username && p.isPlusOne == q.isPlusOne
  {
    var line := TeamLine(p);
    assert line[|line| - 1] == if p.isPlusOne then ')' else ' ';
    assert line[|line| - 1] == if q.isPlusOne then ')' else ' ';
    var suffix := if p.isPlusOne then " (+1)" else " ";
    assert line == "- " + p.username + suffix == "- " + q.username + suffix;
    assert p.username == line[2..|line| - |suffix|] == q.username;
  }

  function TeamsText(black: seq<Player>, white: seq<Player>): string {
    BlackTitle + "\n" + JoinLines(TeamLines(black)) + "\n\n" + WhiteTitle + "\n" + JoinLines(TeamLines(white))
  }

  /** The text stored in `last_team_message` and shown when the list fills. */
  function FullResponse(black: seq<Player>, white: seq<Player>): string {
    FullPrefix + TeamsText(black, white)
  }

  lemma {:induction false} TeamLinesHaveNoNewline(team: seq<Player>)
    requires forall i :: 0 <= i < |team| ==> '\n' !in team[i].username
    ensures forall i :: 0 <= i < |team| ==> '\n' !in TeamLines(team)[i]
  {
    forall i | 0 <= i < |team| ensures '\n' !in TeamLines(team)[i] {
      var name := team[i].username;
      assert forall j :: 0 <= j < |name| ==> name[j] != '\n';
      var line := TeamLine(team[i]);
      assert forall j :: 0 <= j < |line| ==> line[j] != '\n';
    }
  }

  lemma {:induction false} TitlesHaveNoNewline()
    ensures '\n' !in FullHeading && '\n' !in BlackTitle && '\n' !in WhiteTitle
  {
    assert forall j :: 0 <= j < |FullHeading| ==> FullHeading[j] != '\n';
    assert forall j :: 0 <= j < |BlackTitle| ==> BlackTitle[j] != '\n';
    assert forall j :: 0 <= j < |WhiteTitle| ==> WhiteTitle[j] != '\n';
  }

  /** The full announcement reads as the heading, an empty line, the Team Black
      title and one line per member, an empty line, the Team White title and
      one line per member. */
  lemma {:induction false} FullResponseLines(black: seq<Player>, white: seq<Player>)
    requires |black| >= 1 && |white| >= 1
    requires forall i :: 0 <= i < |black| ==> '\n' !in black[i].username
    requires forall i :: 0 <= i < |white| ==> '\n' !in white[i].username
    ensures SplitLines(FullResponse(black, white))
         == [FullHeading, ""] + ([BlackTitle] + TeamLines(black) + ["", WhiteTitle] + TeamLines(white))
  {
    var teamLines := [BlackTitle] + TeamLines(black) + ["", WhiteTitle] + TeamLines(white);
    JoinTitledBlocks(BlackTitle, TeamLines(black), WhiteTitle, TeamLines(white));
    JoinAfterHeading(FullHeading, teamLines);
    var lines := [FullHeading, ""] + teamLines;
    TeamLinesHaveNoNewline(black);
    TeamLinesHaveNoNewline(white);
    TitlesHaveNoNewline();
    forall i | 0 <= i < |lines| ensures '\n' !in lines[i] {
      if i <= 2 || i == |black| + 3 || i == |black| + 4 {
      } else if i <= |black| + 2 {
        assert lines[i] == TeamLines(black)[i - 3];
      } else {
        assert lines[i] == TeamLines(white)[i - |black| - 5];
      }
    }
    SplitJoin(lines);
  }

  class FootballPlayBot {
    var players: seq<Player>
    var playOpen: bool
    var currentPlayDay: Option<Day>
    var lastTeamMessage: Option<string>

    /** Besides the roster invariant: an open list has no stored announcement,
        and a stored one is a full-list announcement. */
    ghost predicate Valid()
      reads this
    {
      RosterInvariant(players, playOpen, currentPlayDay)
      && (playOpen ==> lastTeamMessage.None?)
      && (lastTeamMessage.Some? ==> FullPrefix <= lastTeamMessage.value)
    }

    constructor ()
      ensures Valid()
      ensures players == [] && !playOpen && currentPlayDay == None && lastTeamMessage == None
    {
      players := [];
      playOpen := false;
      currentPlayDay := None;
      lastTeamMessage := None;
    }

    /** `/play Wed` or `/play Sat`. The stored announcement is dropped first,
        whatever follows; then come the administrator check, the day (a bad
        one gets the usage reply even while a list is open) and only then the
        open-list check. */
    method StartPlay(auth: Auth, text: string) returns (e: Effect)
      requires Valid()
      modifies this
      ensures Valid()
      ensures lastTeamMessage == None
      ensures AdminRejection(auth, "start").Some? ==>
        e == AdminRejection(auth, "start").value
        && players == old(players) && playOpen == old(playOpen) && currentPlayDay == old(currentPlayDay)
      ensures AdminRejection(auth, "start").None? && ParseDay(text).None? ==>
        e == Reply(UsageText, false)
        && players == old(players) && playOpen == old(playOpen) && currentPlayDay == old(currentPlayDay)
      ensures AdminRejection(auth, "start").None? && ParseDay(text).Some? && old(playOpen) ==>
        e == Reply(AlreadyInProgress, false)
        && players == old(players) && playOpen && currentPlayDay == old(currentPlayDay)
      ensures AdminRejection(auth, "start").None? && ParseDay(text).Some? && !old(playOpen) ==>
        players == [] && playOpen && currentPlayDay == ParseDay(text)
        && e == Reply(RenderPlayerList(currentPlayDay, []), true)
    {
      lastTeamMessage := None;
      var rejection := AdminRejection(auth, "start");
      if rejection.Some? {
        return rejection.value;
      }
      var day := ParseDay(text);
      if day.None? {
        return Reply(UsageText, false);
      }
      if playOpen {
        return Reply(AlreadyInProgress, false);
      }
      players := [];
      playOpen := true;
      currentPlayDay := day;
      var listText := FormatPlayerList(currentPlayDay, players);
      e := Reply(listText, true);
    }

    /** A button press. On a closed list nothing changes and the stored
        announcement, if there is one, is shown again. On an open list the
        press is applied as `Press` says; a refused press only alerts, and a
        press that brings the list to twelve closes it and announces and
        stores the teams. */
    method HandlePlayResponse(data: string, user: User, shuffle: seq<Player> -> seq<Player>) returns (e: Effect)
      requires Valid() && IsShuffle(shuffle)
      modifies this
      ensures Valid()
      ensures currentPlayDay == old(currentPlayDay)
      ensures !old(playOpen) ==>
        unchanged(this)
        && e == (if old(lastTeamMessage).Some? && old(lastTeamMessage).value != ""
                 then Edit(old(lastTeamMessage).value, false)
                 else Edit(NoActiveList, false))
      ensures old(playOpen) ==>
        var outcome := Press(old(players), data, DisplayName(user));
        if outcome.Rejected? then e == Alert(outcome.alert) && unchanged(this)
        else if |outcome.roster| < MaxPlayers then
          players == outcome.roster && playOpen && lastTeamMessage == None
          && e == Edit(RenderPlayerList(currentPlayDay, players), true)
        else
          var teams := BalancedTeams(outcome.roster, shuffle(PlusOnes(outcome.roster)));
          players == outcome.roster && !playOpen
          && lastTeamMessage == Some(FullResponse(teams.0, teams.1))
          && e == Edit(FullResponse(teams.0, teams.1), false)
    {
      if !playOpen {
        if lastTeamMessage.Some? && lastTeamMessage.value != "" {
          return Edit(lastTeamMessage.value, false);
        }
        return Edit(NoActiveList, false);
      }
      var username := DisplayName(user);
      if data == JoinPlay {
        if HasRegularEntry(players, username) {
          return Alert(AlreadyOnList(username));
        }
        if |players| >= MaxPlayers {
          return Alert(ListFullAlert);
        }
        players := players + [Player(username, DefaultRating, false)];
      } else if data == JoinPlayPlusOne {
        if |players| >= MaxPlayers {
          return Alert(ListFullAlert);
        }
        players := players + [Player(username, DefaultRating, true)];
      } else if data == CancelJoin {
        players := RemoveUser(players, username);
      }
      PressKeepsInvariant(old(players), data, username);
      e := ShowOrClose(shuffle);
    }

    /** The end of the handler, once a press has been applied: a list that has
        reached twelve is closed and the announcement is stored and shown;
        otherwise the list is shown again under its buttons. */
    method ShowOrClose(shuffle: seq<Player> -> seq<Player>) returns (e: Effect)
      requires IsShuffle(shuffle) && playOpen && currentPlayDay.Some? && lastTeamMessage.None?
      requires |players| <= MaxPlayers && DefaultRated(players) && UniqueRegulars(players)
      modifies this
      ensures Valid()
      ensures players == old(players) && currentPlayDay == old(currentPlayDay)
      ensures |players| < MaxPlayers ==>
        playOpen && lastTeamMessage == None
        && e == Edit(RenderPlayerList(currentPlayDay, players), true)
      ensures |players| == MaxPlayers ==>
        var teams := BalancedTeams(players, shuffle(PlusOnes(players)));
        !playOpen && lastTeamMessage == Some(FullResponse(teams.0, teams.1))
        && e == Edit(FullResponse(teams.0, teams.1), false)
    {
      if |players| >= MaxPlayers {
        playOpen := false;
        var black, white := CreateBalancedTeams(players, shuffle(PlusOnes(players)));
        var response := FullResponse(black, white);
        assert FullPrefix <= response by {
          assert response == FullPrefix + TeamsText(black, white);
        }
        lastTeamMessage := Some(response);
        e := Edit(response, false);
      } else {
        var listText := FormatPlayerList(currentPlayDay, players);
        e := Edit(listText, true);
      }
    }

    /** `/cancel_play`. The stored announcement is dropped first, even when the
        administrator check then refuses; after it the list is closed and
        emptied and the day forgotten. */
    method CancelPlay(auth: Auth) returns (e: Effect)
      requires Valid()
      modifies this
      ensures Valid()
      ensures lastTeamMessage == None
      ensures AdminRejection(auth, "cancel").Some? ==>
        e == AdminRejection(auth, "cancel").value
        && players == old(players) && playOpen == old(playOpen) && currentPlayDay == old(currentPlayDay)
      ensures AdminRejection(auth, "cancel").None? ==>
        !playOpen && players == [] && currentPlayDay == None && e == Reply(Cancelled, false)
    {
      lastTeamMessage := None;
      var rejection := AdminRejection(auth, "cancel");
      if rejection.Some? {
        return rejection.value;
      }
      playOpen := false;
      players := [];
      currentPlayDay := None;
      e := Reply(Cancelled, false);
    }
  }

  /** Cancelling twice is cancelling once: the second call gets the same
      answer and leaves the same state. */
  method CancelTwice(bot: FootballPlayBot, auth: Auth) returns (first: Effect, second: Effect)
    requires bot.Valid()
    modifies bot
    ensures first == second
    ensures bot.lastTeamMessage == None
    ensures AdminRejection(auth, "cancel").Some? ==>
      bot.players == old(bot.players) && bot.playOpen == old(bot.playOpen)
      && bot.currentPlayDay == old(bot.currentPlayDay)
    ensures AdminRejection(auth, "cancel").None? ==>
      bot.players == [] && !bot.playOpen && bot.currentPlayDay == None
  {
    first := bot.CancelPlay(auth);
    second := bot.CancelPlay(auth);
  }
}
