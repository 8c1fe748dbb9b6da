/** team_bot.py: the FootballPlayBot whose team split is guarded to six per
    team, with the handlers for /play, the three buttons and /cancel_play. */
module TeamBot {
  import opened Text
  import opened Sequences
  import opened Roster
  import opened Ranking
  import opened PlayerList

  const AlreadyInProgress := "A play list is already in progress! Please use /cancel_play first before starting a new list."
  const Cancelled := "\U{26D4}\U{FE0F} Play cancelled for today."
  const UnbalancedTeams := "Error: Unable to create balanced teams. Please contact admin."
  const BlackTitle := "Team Black \U{26AB}\U{FE0F}:"
  const WhiteTitle := "Team White \U{26AA}\U{FE0F}:"

  /** The draft loop of `create_balanced_teams`: the entry at position i of the
      sorted main players goes to Team Black when i is even and to Team White
      when i is odd, unless that team already has six, in which case it is
      dropped. */
  function Draft(sorted: seq<Player>): (seq<Player>, seq<Player>) {
    if sorted == [] then ([], [])
    else
      var teams := Draft(sorted[..|sorted| - 1]);
      var i := |sorted| - 1;
      if i % 2 == 0 then
        (if |teams.0| < TeamSize then (teams.0 + [sorted[i]], teams.1) else teams)
      else
        (if |teams.1| < TeamSize then (teams.0, teams.1 + [sorted[i]]) else teams)
  }

  /** The +1 loop: each shuffled +1 joins Team Black while it has fewer than
      six, otherwise Team White while it has fewer than six, otherwise nobody. */
  function Fill(black: seq<Player>, white: seq<Player>, plusOnes: seq<Player>): (seq<Player>, seq<Player>) {
    if plusOnes == [] then (black, white)
    else
      var teams := Fill(black, white, plusOnes[..|plusOnes| - 1]);
      var p := plusOnes[|plusOnes| - 1];
      if |teams.0| < TeamSize then (teams.0 + [p], teams.1)
      else if |teams.1| < TeamSize then (teams.0, teams.1 + [p])
      else teams
  }

  function Min(a: int, b: int): int {
    if a < b then a else b
  }

  /** With at most twelve main players the capacity guards never drop one:
      the draft is a plain alternation. */
  lemma {:induction false} DraftKeepsEveryone(sorted: seq<Player>)
    requires |sorted| <= MaxPlayers
    ensures Draft(sorted) == (Evens(sorted), Odds(sorted))
  {
    if sorted != [] {
      var i := |sorted| - 1;
      var init := sorted[..i];
      var last := sorted[i];
      DraftKeepsEveryone(init);
      if i % 2 == 0 {
        assert |Evens(init)| < TeamSize by {
          assert |Evens(init)| == (i + 1) / 2;
        }
        calc {
          Draft(sorted);
          (Evens(init) + [last], Odds(init));
          { assert Evens(sorted) == Evens(init) + [last] && Odds(sorted) == Odds(init); }
          (Evens(sorted), Odds(sorted));
        }
      } else {
        assert |Odds(init)| < TeamSize by {
          assert |Odds(init)| == i / 2;
        }
        calc {
          Draft(sorted);
          (Evens(init), Odds(init) + [last]);
          { assert Evens(sorted) == Evens(init) && Odds(sorted) == Odds(init) + [last]; }
          (Evens(sorted), Odds(sorted));
        }
      }
    }
  }

  /** When the teams and the +1 entries add up to at most twelve, no +1 is
      dropped: Team Black takes the first ones up to six, Team White the rest. */
  lemma {:induction false} FillKeepsEveryone(black: seq<Player>, white: seq<Player>, plusOnes: seq<Player>)
    requires |black| <= TeamSize && |white| <= TeamSize
    requires |black| + |white| + |plusOnes| <= MaxPlayers
    ensures var k := Min(TeamSize - |black|, |plusOnes|);
      Fill(black, white, plusOnes) == (black + plusOnes[..k], white + plusOnes[k..])
  {
    if plusOnes != [] {
      var n := |plusOnes| - 1;
      var init := plusOnes[..n];
      var p := plusOnes[n];
      FillKeepsEveryone(black, white, init);
      var k0 := Min(TeamSize - |black|, |init|);
      var k := Min(TeamSize - |black|, |plusOnes|);
      var teams := Fill(black, white, init);
      assert teams == (black + init[..k0], white + init[k0..]);
      assert Fill(black, white, plusOnes) ==
        (if |teams.0| < TeamSize then (teams.0 + [p], teams.1)
         else if |teams.1| < TeamSize then (teams.0, teams.1 + [p])
         else teams);
      if k0 < TeamSize - |black| {
        assert k0 == n && k == k0 + 1;
        assert |teams.0| < TeamSize;
        assert plusOnes[..k] == init[..k0] + [p];
        assert plusOnes[k..] == [] && init[k0..] == [];
        assert teams.0 + [p] == black + plusOnes[..k];
        assert teams.1 == white + plusOnes[k..];
      } else {
        assert k == k0;
        assert |teams.0| == TeamSize;
        assert |teams.1| == |white| + n - k0 < TeamSize;
        assert plusOnes[..k] == init[..k0];
        assert plusOnes[k..] == init[k0..] + [p];
        assert teams.0 == black + plusOnes[..k];
        assert teams.1 + [p] == white + plusOnes[k..];
      }
    } else {
      assert black + plusOnes[..0] == black && white + plusOnes[0..] == white;
    }
  }

  /** The two teams `create_balanced_teams` returns, for the +1 entries in the
      order `shuffled` puts them. */
  function BalancedTeams(players: seq<Player>, shuffled: seq<Player>): (seq<Player>, seq<Player>) {
    if |players| != MaxPlayers then
      var cut := Min(TeamSize, |players|);
      (players[..cut], players[cut..])
    else
      var drafted := Draft(SortByRatingDesc(Mains(players)));
      Fill(drafted.0, drafted.1, shuffled)
  }

  /** With exactly twelve entries and any order of the +1 entries, Team Black
      holds the sorted main players at even positions and then the first
      shuffled +1 entries, Team White the odd positions and the remaining +1
      entries. */
  lemma {:induction false} FullRosterShape(players: seq<Player>, shuffled: seq<Player>)
    requires |players| == MaxPlayers
    requires multiset(shuffled) == multiset(PlusOnes(players))
    ensures var teams := BalancedTeams(players, shuffled);
      var sorted := SortByRatingDesc(Mains(players));
      var k := TeamSize - |Evens(sorted)|;
      0 <= k <= |shuffled|
      && teams.0 == Evens(sorted) + shuffled[..k]
      && teams.1 == Odds(sorted) + shuffled[k..]
  {
    MainsPlusOnesPartition(players);
    assert |shuffled| == |multiset(shuffled)| == |PlusOnes(players)|;
    DraftThenFill(SortByRatingDesc(Mains(players)), shuffled);
  }

  /** With exactly twelve entries and any order of the +1 entries, each team
      has six members and together they are the roster. */
  lemma {:induction false} FullRosterSplitsSixSix(players: seq<Player>, shuffled: seq<Player>)
    requires |players| == MaxPlayers
    requires multiset(shuffled) == multiset(PlusOnes(players))
    ensures var teams := BalancedTeams(players, shuffled);
      |teams.0| == TeamSize && |teams.1| == TeamSize
      && multiset(teams.0 + teams.1) == multiset(players)
  {
    var sorted := SortByRatingDesc(Mains(players));
    var teams := BalancedTeams(players, shuffled);
    var k := TeamSize - |Evens(sorted)|;
    FullRosterShape(players, shuffled);
    assert teams.0 == Evens(sorted) + shuffled[..k] && teams.1 == Odds(sorted) + shuffled[k..];
    MainsPlusOnesPartition(players);
    assert |shuffled| == |multiset(shuffled)| == |PlusOnes(players)|;
    SixEachSizes(|sorted|, |shuffled|);
    assert |teams.0| == TeamSize && |teams.1| == TeamSize;
    TeamsArePermutation(sorted, shuffled, k, players);
  }

  /** The draft and the +1 loop on a full roster: main players alternate,
      Team Black is topped up to six from the front of the +1 entries and
      Team White gets the rest. */
  lemma {:induction false} DraftThenFill(sorted: seq<Player>, shuffled: seq<Player>)
    requires |sorted| + |shuffled| == MaxPlayers
    ensures var k := TeamSize - |Evens(sorted)|;
      var teams := Fill(Draft(sorted).0, Draft(sorted).1, shuffled);
      0 <= k <= |shuffled|
      && teams.0 == Evens(sorted) + shuffled[..k] && teams.1 == Odds(sorted) + shuffled[k..]
      && |teams.0| == TeamSize && |teams.1| == TeamSize
  {
    SixEachSizes(|sorted|, |shuffled|);
    DraftKeepsEveryone(sorted);
    FillKeepsEveryone(Evens(sorted), Odds(sorted), shuffled);
  }

  /** The arithmetic of a full roster with m main players and p +1 entries. */
  lemma {:induction false} SixEachSizes(m: nat, p: nat)
    requires m + p == MaxPlayers
    ensures var k := TeamSize - (m + 1) / 2;
      0 <= k <= p && k == Min(TeamSize - (m + 1) / 2, p)
      && (m + 1) / 2 + k == TeamSize && m / 2 + (p - k) == TeamSize
  {
  }

  lemma {:induction false} TeamsArePermutation(sorted: seq<Player>, shuffled: seq<Player>, k: nat, players: seq<Player>)
    requires k <= |shuffled|
    requires multiset(sorted) + multiset(shuffled) == multiset(players)
    ensures multiset(Evens(sorted) + shuffled[..k] + (Odds(sorted) + shuffled[k..])) == multiset(players)
  {
    EvensOddsPermutation(sorted);
    assert shuffled == shuffled[..k] + shuffled[k..];
  }

  /** Every entry is rated 5 and the sort is stable, so the main players are
      drafted in the order they joined: Team Black gets main players 0, 2, 4, ...
      and Team White main players 1, 3, 5, ..., each followed by +1 entries. */
  lemma {:induction false} FullRosterDraftsInJoinOrder(players: seq<Player>, shuffled: seq<Player>)
    requires |players| == MaxPlayers
    requires multiset(shuffled) == multiset(PlusOnes(players))
    requires DefaultRated(players)
    ensures var teams := BalancedTeams(players, shuffled);
      var mains := Mains(players);
      var k := TeamSize - |Evens(mains)|;
      0 <= k <= |shuffled|
      && teams.0 == Evens(mains) + shuffled[..k]
      && teams.1 == Odds(mains) + shuffled[k..]
  {
    var mains := Mains(players);
    forall i | 0 <= i < |mains| ensures mains[i].rating == DefaultRating {
      assert mains[i] in players;
    }
    SortKeepsEqualRatingsInOrder(mains, DefaultRating);
    FullRosterShape(players, shuffled);
  }

  /** `pop()` removes the last entry and nothing else. */
  lemma {:induction false} PopKeepsEntries(from: seq<Player>)
    requires |from| >= 1
    ensures multiset(from[..|from| - 1]) + multiset{from[|from| - 1]} == multiset(from)
  {
    assert from == from[..|from| - 1] + [from[|from| - 1]];
  }

  /** The two `while ... pop()` loops that end `create_balanced_teams`: they
      move entries from the end of the larger team to the smaller one. They
      keep the entries, bring a total of twelve to six and six, and change
      nothing when both teams already have six. */
  method Rebalance(black0: seq<Player>, white0: seq<Player>) returns (black: seq<Player>, white: seq<Player>)
    ensures multiset(black + white) == multiset(black0 + white0)
    ensures |black0| + |white0| == MaxPlayers ==> |black| == TeamSize && |white| == TeamSize
    ensures |black0| == TeamSize && |white0| == TeamSize ==> black == black0 && white == white0
  {
    black, white := black0, white0;
    while |black| < TeamSize && |white| > TeamSize
      invariant |black| + |white| == |black0| + |white0|
      invariant multiset(black) + multiset(white) == multiset(black0) + multiset(white0)
      invariant |black0| == TeamSize && |white0| == TeamSize ==> black == black0 && white == white0
      decreases |white|
    {
      PopKeepsEntries(white);
      black := black + [white[|white| - 1]];
      white := white[..|white| - 1];
    }
    while |white| < TeamSize && |black| > TeamSize
      invariant |black| + |white| == |black0| + |white0|
      invariant |black0| + |white0| == MaxPlayers ==> |black| >= TeamSize
      invariant multiset(black) + multiset(white) == multiset(black0) + multiset(white0)
      invariant |black0| == TeamSize && |white0| == TeamSize ==> black == black0 && white == white0
      decreases |black|
    {
      PopKeepsEntries(black);
      white := white + [black[|black| - 1]];
      black := black[..|black| - 1];
    }
  }

  /** The draft loop over the sorted main players. */
  method DraftMainPlayers(sortedMain: seq<Player>) returns (black: seq<Player>, white: seq<Player>)
    ensures (black, white) == Draft(sortedMain)
  {
    black, white := [], [];
    for i := 0 to |sortedMain|
      invariant (black, white) == Draft(sortedMain[..i])
    {
      var player := sortedMain[i];
      assert sortedMain[..i + 1][..i] == sortedMain[..i];
      if i % 2 == 0 {
        if |black| < TeamSize {
          black := black + [player];
        }
      } else {
        if |white| < TeamSize {
          white := white + [player];
        }
      }
    }
    assert sortedMain[..|sortedMain|] == sortedMain;
  }

  /** The loop that places the shuffled +1 entries. */
  method AddPlusOnes(black0: seq<Player>, white0: seq<Player>, shuffled: seq<Player>) returns (black: seq<Player>, white: seq<Player>)
    ensures (black, white) == Fill(black0, white0, shuffled)
  {
    black, white := black0, white0;
    for j := 0 to |shuffled|
      invariant (black, white) == Fill(black0, white0, shuffled[..j])
    {
      var player := shuffled[j];
      assert shuffled[..j + 1][..j] == shuffled[..j];
      if |black| < TeamSize {
        black := black + [player];
      } else if |white| < TeamSize {
        white := white + [player];
      }
    }
    assert shuffled[..|shuffled|] == shuffled;
  }

  /** `create_balanced_teams`, with the shuffled +1 entries given by the caller. */
  method CreateBalancedTeams(players: seq<Player>, shuffled: seq<Player>) returns (black: seq<Player>, white: seq<Player>)
    requires multiset(shuffled) == multiset(PlusOnes(players))
    ensures (black, white) == BalancedTeams(players, shuffled)
    ensures |players| != MaxPlayers ==> black + white == players && |black| == Min(TeamSize, |players|)
    ensures |players| == MaxPlayers ==>
      |black| == TeamSize && |white| == TeamSize && multiset(black + white) == multiset(players)
  {
    if |players| != MaxPlayers {
      var cut := Min(TeamSize, |players|);
      black, white := players[..cut], players[cut..];
      assert black + white == players;
      return;
    }
    var sortedMain := SortByRatingDesc(Mains(players));
    black, white := DraftMainPlayers(sortedMain);
    black, white := AddPlusOnes(black, white, shuffled);
    ghost var teams := BalancedTeams(players, shuffled);
    assert (black, white) == teams;
    FullRosterSplitsSixSix(players, shuffled);
    assert |black| == TeamSize && |white| == TeamSize && multiset(black + white) == multiset(players);
    black, white := Rebalance(black, white);
  }

  /** A team member's line: a dash, the name, and " (+1)" directly behind a +1 entry's name. */
  function TeamLine(p: Player): string {
    "- " + p.username + (if p.isPlusOne then " (+1)" else "")
  }

  function TeamLines(team: seq<Player>): seq<string> {
    seq(|team|, i requires 0 <= i < |team| => TeamLine(team[i]))
  }

  /** The teams text kept in `last_team_message`. */
  function TeamsMessage(black: seq<Player>, white: seq<Player>): string {
    BlackTitle + "\n" + JoinLines(TeamLines(black)) + "\n\n" + WhiteTitle + "\n" + JoinLines(TeamLines(white))
  }

  lemma {:induction false} TeamLinesHaveNoNewline(team: seq<Player>)
    requires forall i :: 0 <= i < |team| ==> '\n' !in team[i].username
    ensures forall i :: 0 <= i < |team| ==> '\n' !in TeamLines(team)[i]
  {
    forall i | 0 <= i < |team| ensures '\n' !in TeamLines(team)[i] {
      var name := team[i].username;
      assert forall j :: 0 <= j < |name| ==> name[j] != '\n';
      var line := TeamLine(team[i]);
      assert forall j :: 0 <= j < |line| ==> line[j] != '\n';
    }
  }

  /** The teams text reads as the Team Black title, one "- name" line per
      member (with " (+1)" behind a +1 entry), an empty line, the Team White
      title and its members. */
  lemma {:induction false} TeamsMessageLines(black: seq<Player>, white: seq<Player>)
    requires |black| >= 1 && |white| >= 1
    requires forall i :: 0 <= i < |black| ==> '\n' !in black[i].username
    requires forall i :: 0 <= i < |white| ==> '\n' !in white[i].username
    ensures SplitLines(TeamsMessage(black, white))
         == [BlackTitle] + TeamLines(black) + ["", WhiteTitle] + TeamLines(white)
  {
    var lines := [BlackTitle] + TeamLines(black) + ["", WhiteTitle] + TeamLines(white);
    JoinTitledBlocks(BlackTitle, TeamLines(black), WhiteTitle, TeamLines(white));
    TeamLinesHaveNoNewline(black);
    TeamLinesHaveNoNewline(white);
    TitlesHaveNoNewline();
    forall i | 0 <= i < |lines| ensures '\n' !in lines[i] {
      if i == 0 || i == |black| + 1 || i == |black| + 2 {
      } else if i <= |black| {
        assert lines[i] == TeamLines(black)[i - 1];
      } else {
        assert lines[i] == TeamLines(white)[i - |black| - 3];
      }
    }
    SplitJoin(lines);
  }

  lemma {:induction false} TitlesHaveNoNewline()
    ensures '\n' !in BlackTitle && '\n' !in WhiteTitle
  {
    assert forall j :: 0 <= j < |BlackTitle| ==> BlackTitle[j] != '\n';
    assert forall j :: 0 <= j < |WhiteTitle| ==> WhiteTitle[j] != '\n';
  }

  /** A +1 entry and a regular entry whose name ends in " (+1)" print alike. */
  lemma {:induction false} TeamLineCanBeAmbiguous()
    ensures TeamLine(Player("Sam", DefaultRating, true)) == TeamLine(Player("Sam (+1)", DefaultRating, false))
  {
  }

  class FootballPlayBot {
    var players: seq<Player>
    var playOpen: bool
    var currentPlayDay: Option<Day>
    var lastTeamMessage: Option<string>

    ghost predicate Valid()
      reads this
    {
      RosterInvariant(players, playOpen, currentPlayDay)
    }

    constructor ()
      ensures Valid()
      ensures players == [] && !playOpen && currentPlayDay == None && lastTeamMessage == None
    {
      players := [];
      playOpen := false;
      currentPlayDay := None;
      lastTeamMessage := None;
    }

    /** `/play Wed` or `/play Sat`: after the administrator check, a list
        already open is refused, then a command naming no day gets the usage
        reply, and otherwise an empty list opens for that day. */
    method StartPlay(auth: Auth, text: string) returns (e: Effect)
      requires Valid()
      modifies this
      ensures Valid()
      ensures lastTeamMessage == old(lastTeamMessage)
      ensures AdminRejection(auth, "start").Some? ==>
        e == AdminRejection(auth, "start").value && unchanged(this)
      ensures AdminRejection(auth, "start").None? && old(playOpen) ==>
        e == Reply(AlreadyInProgress, false) && unchanged(this)
      ensures AdminRejection(auth, "start").None? && !old(playOpen) && ParseDay(text).None? ==>
        e == Reply(UsageText, false) && unchanged(this)
      ensures AdminRejection(auth, "start").None? && !old(playOpen) && ParseDay(text).Some? ==>
        players == [] && playOpen && currentPlayDay == ParseDay(text)
        && e == Reply(RenderPlayerList(currentPlayDay, []), true)
    {
      var rejection := AdminRejection(auth, "start");
      if rejection.Some? {
        return rejection.value;
      }
      if playOpen {
        return Reply(AlreadyInProgress, false);
      }
      var day := ParseDay(text);
      if day.None? {
        return Reply(UsageText, false);
      }
      players := [];
      playOpen := true;
      currentPlayDay := day;
      var listText := FormatPlayerList(currentPlayDay, players);
      e := Reply(listText, true);
    }

    /** A button press. On a closed list nothing changes. On an open list the
        press is applied as `Press` says; a refused press only alerts, and a
        press that brings the list to twelve closes it and announces the teams. */
    method HandlePlayResponse(data: string, user: User, shuffle: seq<Player> -> seq<Player>) returns (e: Effect)
      requires Valid() && IsShuffle(shuffle)
      modifies this
      ensures Valid()
      ensures currentPlayDay == old(currentPlayDay)
      ensures !old(playOpen) ==> e == Edit(NoActiveList, false) && unchanged(this)
      ensures old(playOpen) ==>
        var outcome := Press(old(players), data, DisplayName(user));
        if outcome.Rejected? then e == Alert(outcome.alert) && unchanged(this)
        else if |outcome.roster| < MaxPlayers then
          players == outcome.roster && playOpen && lastTeamMessage == old(lastTeamMessage)
          && e == Edit(RenderPlayerList(currentPlayDay, players), true)
        else
          var teams := BalancedTeams(outcome.roster, shuffle(PlusOnes(outcome.roster)));
          players == outcome.roster && !playOpen
          && lastTeamMessage == Some(TeamsMessage(teams.0, teams.1))
          && e == Edit(FullPrefix + TeamsMessage(teams.0, teams.1), false)
    {
      if !playOpen {
        return Edit(NoActiveList, false);
      }
      var username := DisplayName(user);
      if data == JoinPlay {
        if HasRegularEntry(players, username) {
          return Alert(AlreadyOnList(username));
        }
        if |players| >= MaxPlayers {
          return Alert(ListFullAlert);
        }
        players := players + [Player(username, DefaultRating, false)];
      } else if data == JoinPlayPlusOne {
        if |players| >= MaxPlayers {
          return Alert(ListFullAlert);
        }
        players := players + [Player(username, DefaultRating, true)];
      } else if data == CancelJoin {
        players := RemoveUser(players, username);
      }
      PressKeepsInvariant(old(players), data, username);
      e := ShowOrClose(shuffle);
    }

    /** The end of the handler, once a press has been applied: a list that has
        reached twelve is closed and the teams are announced and remembered;
        otherwise the list is shown again under its buttons. */
    method ShowOrClose(shuffle: seq<Player> -> seq<Player>) returns (e: Effect)
      requires IsShuffle(shuffle) && playOpen && currentPlayDay.Some?
      requires |players| <= MaxPlayers && DefaultRated(players) && UniqueRegulars(players)
      modifies this
      ensures Valid()
      ensures players == old(players) && currentPlayDay == old(currentPlayDay)
      ensures |players| < MaxPlayers ==>
        playOpen && lastTeamMessage == old(lastTeamMessage)
        && e == Edit(RenderPlayerList(currentPlayDay, players), true)
      ensures |players| == MaxPlayers ==>
        var teams := BalancedTeams(players, shuffle(PlusOnes(players)));
        !playOpen && lastTeamMessage == Some(TeamsMessage(teams.0, teams.1))
        && e == Edit(FullPrefix + TeamsMessage(teams.0, teams.1), false)
    {
      if |players| >= MaxPlayers {
        playOpen := false;
        var black, white := CreateBalancedTeams(players, shuffle(PlusOnes(players)));
        if |black| != TeamSize || |white| != TeamSize {
          e := Edit(UnbalancedTeams, false);
        } else {
          var teamsMessage := TeamsMessage(black, white);
          lastTeamMessage := Some(teamsMessage);
          e := Edit(FullPrefix + teamsMessage, false);
        }
      } else {
        var listText := FormatPlayerList(currentPlayDay, players);
        e := Edit(listText, true);
      }
    }

    /** `/cancel_play`: after the administrator check the list is closed and
        emptied and the day forgotten, whatever the state was. */
    method CancelPlay(auth: Auth) returns (e: Effect)
      requires Valid()
      modifies this
      ensures Valid()
      ensures lastTeamMessage == old(lastTeamMessage)
      ensures AdminRejection(auth, "cancel").Some? ==>
        e == AdminRejection(auth, "cancel").value && unchanged(this)
      ensures AdminRejection(auth, "cancel").None? ==>
        !playOpen && players == [] && currentPlayDay == None && e == Reply(Cancelled, false)
    {
      var rejection := AdminRejection(auth, "cancel");
      if rejection.Some? {
        return rejection.value;
      }
      playOpen := false;
      players := [];
      currentPlayDay := None;
      e := Reply(Cancelled, false);
    }
  }

  /** Cancelling twice is cancelling once: the second call gets the same
      answer and leaves the same state. */
  method CancelTwice(bot: FootballPlayBot, auth: Auth) returns (first: Effect, second: Effect)
    requires bot.Valid()
    modifies bot
    ensures first == second
    ensures bot.lastTeamMessage == old(bot.lastTeamMessage)
    ensures AdminRejection(auth, "cancel").Some? ==> unchanged(bot)
    ensures AdminRejection(auth, "cancel").None? ==>
      bot.players == [] && !bot.playOpen && bot.currentPlayDay == None
  {
    first := bot.CancelPlay(auth);
    second := bot.CancelPlay(auth);
  }
}
