/** `format_player_list`, which both versions define alike: the list shown
    under the three buttons while signups are open. */
module PlayerList {
  import opened Text
  import opened Roster

  const NoDaySelected := "No play day selected"
  const InListTitle := "In List :"

  /** One entry of `self.play_details`. */
  datatype Details = Details(title: string, time: string, location: string)

  function PlayDetails(day: Day): Details {
    match day
    case Sat => Details("Saturday Night", "10pm to 11pm", "Teenage Ground")
    case Wed => Details("Wednesday Night", "11pm to 12am", "Teenage Ground")
  }

  /** The bold header line: day, time and place of the game. */
  function Header(day: Day): string {
    var details := PlayDetails(day);
    "**" + details.title + " Play " + details.time + " at " + details.location + "**"
  }

  predicate DetailsFreeOfNewline(d: Details) {
    '\n' !in d.title && '\n' !in d.time && '\n' !in d.location
  }

  /** The day, time and place of both games hold no newline. */
  lemma {:induction false} DetailsHaveNoNewline(day: Day)
    ensures DetailsFreeOfNewline(PlayDetails(day))
  {
    var d := PlayDetails(day);
    assert forall j :: 0 <= j < |d.title| ==> d.title[j] != '\n';
    assert forall j :: 0 <= j < |d.time| ==> d.time[j] != '\n';
    assert forall j :: 0 <= j < |d.location| ==> d.location[j] != '\n';
  }

  lemma {:induction false} HeaderHasNoNewline(day: Day)
    ensures '\n' !in Header(day) && '\n' !in InListTitle
  {
    var d := PlayDetails(day);
    DetailsHaveNoNewline(day);
    assert '\n' !in "**" && '\n' !in " Play " && '\n' !in " at " by {
      assert forall j :: 0 <= j < |" Play "| ==> " Play "[j] != '\n';
      assert forall j :: 0 <= j < |" at "| ==> " at "[j] != '\n';
    }
    assert Header(day) == "**" + d.title + " Play " + d.time + " at " + d.location + "**";
    assert forall j :: 0 <= j < |InListTitle| ==> InListTitle[j] != '\n';
  }

  /** The name as the list shows it: with " (+1)" behind a +1 entry. */
  function EntryText(p: Player): string {
    p.username + (if p.isPlusOne then " (+1)" else "")
  }

  /** Line `i` of the numbered part: "i. name" for a taken place, "i." for a free one. */
  function EntryLine(i: nat, players: seq<Player>): string {
    if 1 <= i <= |players| then NatToString(i) + ". " + EntryText(players[i - 1]) else NatToString(i) + "."
  }

  function NumberedLines(count: nat, players: seq<Player>): seq<string> {
    seq(count, k requires 0 <= k < count => EntryLine(k + 1, players))
  }

  /** The text `format_player_list` returns for the given day and roster. */
  function RenderPlayerList(day: Option<Day>, players: seq<Player>): string {
    if day.None? then NoDaySelected
    else JoinLines([Header(day.value), InListTitle] + NumberedLines(MaxPlayers, players))
  }

  method FormatPlayerList(day: Option<Day>, players: seq<Player>) returns (text: string)
    ensures text == RenderPlayerList(day, players)
    ensures day.None? ==> text == NoDaySelected
  {
    if day.None? {
      return NoDaySelected;
    }
    var lines := [Header(day.value), InListTitle];
    for i := 1 to MaxPlayers + 1
      invariant lines == [Header(day.value), InListTitle] + NumberedLines(i - 1, players)
    {
      var line;
      if i <= |players| {
        var player := players[i - 1];
        var display := player.username;
        if player.isPlusOne {
          display := display + " (+1)";
        }
        line := NatToString(i) + ". " + display;
      } else {
        line := NatToString(i) + ".";
      }
      assert line == EntryLine(i, players);
      lines := lines + [line];
    }
    text := JoinLines(lines);
  }

  lemma {:induction false} EntryLineHasNoNewline(i: nat, players: seq<Player>)
    requires forall k :: 0 <= k < |players| ==> '\n' !in players[k].username
    ensures '\n' !in EntryLine(i, players)
  {
    var digits := NatToString(i);
    assert forall j :: 0 <= j < |digits| ==> digits[j] != '\n';
    if 1 <= i <= |players| {
      var name := players[i - 1].username;
      assert forall j :: 0 <= j < |name| ==> name[j] != '\n';
      var line := digits + ". " + EntryText(players[i - 1]);
      assert forall j :: 0 <= j < |line| ==> line[j] != '\n';
    } else {
      var line := digits + ".";
      assert forall j :: 0 <= j < |line| ==> line[j] != '\n';
    }
  }

  lemma {:induction false} ListLinesHaveNoNewline(day: Day, players: seq<Player>)
    requires forall i :: 0 <= i < |players| ==> '\n' !in players[i].username
    ensures var lines := [Header(day), InListTitle] + NumberedLines(MaxPlayers, players);
      forall k :: 0 <= k < |lines| ==> '\n' !in lines[k]
  {
    var lines := [Header(day), InListTitle] + NumberedLines(MaxPlayers, players);
    forall k | 0 <= k < |lines| ensures '\n' !in lines[k] {
      if k >= 2 {
        assert lines[k] == EntryLine(k - 1, players);
        EntryLineHasNoNewline(k - 1, players);
      } else {
        HeaderHasNoNewline(day);
      }
    }
  }

  lemma {:induction false} PlayerListSplits(day: Day, players: seq<Player>)
    requires forall i :: 0 <= i < |players| ==> '\n' !in players[i].username
    ensures SplitLines(RenderPlayerList(Some(day), players))
         == [Header(day), InListTitle] + NumberedLines(MaxPlayers, players)
  {
    ListLinesHaveNoNewline(day, players);
    SplitJoin([Header(day), InListTitle] + NumberedLines(MaxPlayers, players));
  }

  lemma {:induction false} NumberedLinesAt(players: seq<Player>)
    ensures forall i :: 1 <= i <= MaxPlayers ==>
      NumberedLines(MaxPlayers, players)[i - 1] == NatToString(i) + "." + (if i <= |players| then " " + EntryText(players[i - 1]) else "")
  {
  }

  /** The list reads as a header, "In List :" and then exactly twelve numbered
      lines: line i names entry i, with " (+1)" behind a +1 entry, when there is
      one and is "i." otherwise. */
  lemma {:induction false} PlayerListLines(day: Day, players: seq<Player>)
    requires forall i :: 0 <= i < |players| ==> '\n' !in players[i].username
    ensures var lines := SplitLines(RenderPlayerList(Some(day), players));
      |lines| == 2 + MaxPlayers && lines[0] == Header(day) && lines[1] == InListTitle
      && forall i :: 1 <= i <= MaxPlayers ==>
           lines[i + 1] == NatToString(i) + "." + (if i <= |players| then " " + EntryText(players[i - 1]) else "")
  {
    PlayerListSplits(day, players);
    NumberedLinesAt(players);
    var lines := SplitLines(RenderPlayerList(Some(day), players));
    var numbered := NumberedLines(MaxPlayers, players);
    assert lines == [Header(day), InListTitle] + numbered;
    assert |numbered| == MaxPlayers;
    forall k | 2 <= k < |lines| ensures lines[k] == numbered[k - 2] {
    }
  }
}
