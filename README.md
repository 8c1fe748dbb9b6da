# FootballPlayBot, modelled in Dafny

FootballPlayBot is a Telegram bot that runs a sign-up list for a weekly
football game. An administrator opens a list for Wednesday or Saturday with
`/play Wed` or `/play Sat`. Members then press one of three buttons:

- "In" joins the list;
- "+1" adds a guest under the member's name;
- "Out" removes every entry the member has.

When the list reaches twelve entries it closes, and the bot splits the
players into Team Black and Team White. `/cancel_play` throws the list away.

The repository holds two versions of the bot, and both are modelled.

- `team_bot.py` guards its team split so that each side gets six players.
  It ends with two `pop` loops meant to move players between the teams; on
  a full roster they never run.
- `team_bot_v4.5.py` alternates the players with no guard. It keeps the
  last team announcement so that a press on a closed list can show it again.
  It also checks the day before checking for an open list.

Each version becomes a class `FootballPlayBot` whose fields are the bot's
four fields:

- `players`, the roster;
- `playOpen`;
- `currentPlayDay`;
- `lastTeamMessage`.

Its methods are the three handlers: `StartPlay`, `HandlePlayResponse` and
`CancelPlay`. Each handler returns an `Effect` (a reply, an edit of the list
message, or an alert) in place of the Telegram call. The class invariant
`Valid()` holds before and after every handler. It says:

- the roster has at most twelve entries;
- an open list has fewer than twelve entries and a day;
- every entry is rated 5;
- no user has two regular entries.

In the later version `Valid()` also says that an open list has no stored
announcement, and that a stored announcement starts with the full-list
heading, so it is never empty and a press on a closed list always shows it
again.

The modules are:

- `Text` (text.dfy): the Python string operations the bot uses, with their
  round trips. These are `str.strip`, the lower-cased prefix test on the
  command, the decimal line numbers, and `"\n".join` with `split("\n")`.
- `Sequences` (sequences.dfy): filtering comprehensions, and the split of a
  sequence into its even and odd positions.
- `Ranking` (ranking.dfy): the stable sort by rating, highest first.
- `Roster` (roster.dfy): the entities, the administrator check, the
  display name, the day parse, and the rules of the three buttons (`Press`).
- `PlayerList` (player_list.dfy): `format_player_list`. It is written the
  same way in both files, so it is modelled once.
- `TeamBot` (team_bot.dfy): `team_bot.py`.
- `TeamBotV45` (team_bot_v45.dfy): `team_bot_v4.5.py`.

The loops of the source are methods with loop invariants. The list lines
(`FormatPlayerList`) and the draft loops (`DraftMainPlayers`, `AddPlusOnes`,
`Deal`) are proved equal to a specification function, and the properties are
lemmas about those functions. The rebalancing `while` loops (`Rebalance`) are
proved to keep the entries, to make a total of twelve into six and six, and to
change nothing when both teams already have six.

## Model

| member | source | states |
|---|---|---|
| Text.IsSpace | team_bot.py:178 | the characters `str.strip` removes: exactly the single code points for which Python's `str.isspace` holds (the definition; `Strip` and `StripIdempotent` state its use) |
| Text.TrimStart | team_bot.py:178 | the result is a suffix of the input, only whitespace was dropped, and it does not start with whitespace |
| Text.TrimEnd | team_bot.py:178 | the result is a prefix of the input, only whitespace was dropped, and it does not end with whitespace |
| Text.Strip | team_bot.py:178 | neither end of the result is whitespace, and the input is the result with nothing but whitespace on either side |
| Text.TrimmedBothEnds | team_bot.py:178 | trimming the front and then the back of a name strips it, as `str.strip` promises |
| Text.StripIdempotent | team_bot.py:178 | stripping a stripped name changes nothing |
| Text.Lower | team_bot.py:131 | same length as the input; every character is lower-cased where it is an ASCII capital and kept otherwise |
| Text.NatToString | team_bot.py:87 | a line number prints as a non-empty run of decimal digits with no leading zero (only 0 itself starts with '0'); with `NatToStringRoundTrip` this fixes the string for every number |
| Text.NatToStringRoundTrip | team_bot.py:87 | reading the printed digits back gives the number |
| Text.IndexOfNewline | team_bot.py:91 | the first newline of a text: a newline sits there and none before it |
| Text.JoinLines | team_bot.py:91 | `"\n".join`: the lines with one newline between each pair and none at the ends (the definition; `SplitJoin`, `JoinSplit`, `JoinConcat` and `JoinPrepend` state its properties) |
| Text.SplitLines | team_bot.py:91 | splitting at newlines gives at least one piece and no piece holds a newline |
| Text.SplitJoin | team_bot.py:91 | splitting a joined text gives back the lines, when none of them holds a newline |
| Text.JoinSplit | team_bot.py:91 | joining the pieces of a split gives back the text |
| Text.JoinConcat | team_bot.py:91 | joining two groups of lines with a newline between them is joining all of them |
| Text.JoinPrepend | team_bot.py:91 | joining a line in front of other lines puts one newline after it |
| Text.JoinTitledBlocks | team_bot.py:243-251 | two titled blocks joined with an empty line between them are one join of all their lines |
| Text.JoinAfterHeading | team_bot_v4.5.py:241-244 | a heading followed by an empty line and a join of lines is one join of all of them |
| Sequences.Filter | team_bot.py:218 | a comprehension keeps only entries of the input that pass the test, and never more than there were |
| Sequences.FilterAppend | team_bot.py:281-282 | filtering distributes over concatenation, so the kept entries stay in roster order |
| Sequences.FilterCount | team_bot.py:218 | each value is kept exactly as often as it occurs when it passes, and never when it fails |
| Sequences.FilterAll | team_bot.py:218 | when every entry passes, the filter returns the input |
| Sequences.FilterNone | team_bot.py:281-282 | when no entry passes, the filter returns nothing |
| Sequences.Evens | team_bot_v4.5.py:285-289 | the even positions number ceil(n/2) |
| Sequences.Odds | team_bot_v4.5.py:285-289 | the odd positions number floor(n/2) |
| Sequences.EvensOddsAt | team_bot_v4.5.py:285-289 | entry k of the even side is entry 2k of the input, and entry k of the odd side is entry 2k+1 |
| Sequences.EvensOddsPermutation | team_bot_v4.5.py:285-289 | the even and odd sides together hold exactly the entries of the input |
| Ranking.InsertByRating | team_bot.py:285 | inserting adds exactly that one entry |
| Ranking.InsertKeepsBound | team_bot.py:285 | inserting an entry rated at most b into a list rated at most b keeps every rating at most b |
| Ranking.ConsKeepsSorted | team_bot.py:285 | an entry rated at least as high as every later one extends a descending list |
| Ranking.InsertKeepsSorted | team_bot.py:285 | inserting into a list sorted by rating (highest first) keeps it sorted |
| Ranking.SortByRatingDesc | team_bot.py:285 | the sort is a permutation of its input and is sorted by rating, highest first |
| Ranking.InsertKeepsOrderOfEqualRatings | team_bot.py:285 | an inserted entry goes after every earlier entry with the same rating |
| Ranking.SortIsStable | team_bot.py:285 | for every rating, the entries with that rating keep their relative order |
| Ranking.SortKeepsEqualRatingsInOrder | team_bot.py:285 | when all ratings are equal the sort returns its input unchanged |
| Roster.AdminRejection | team_bot.py:98-120 | the sender may go on exactly in a chat that is not a group or supergroup, or as a group administrator; a failed lookup reports its error; a refusal is a reply without buttons |
| Roster.DisplayName | team_bot.py:178 | a non-empty username is the name; otherwise the name is the first and last name with the whitespace around them stripped |
| Roster.ParseDay | team_bot.py:131-134 | a day is found only in a text at least as long as "/play wed" |
| Roster.ParseDayExamples | team_bot.py:131-141 | "/play Wed" is Wednesday, "/PLAY SAT please" is Saturday, and "/play", "/play Fri" and "/playwed" name no day |
| Roster.ParseDayIgnoresRest | team_bot.py:131-134 | text after a recognised day never changes the day |
| Roster.ParseDayIgnoresCase | team_bot.py:131-134 | the day is read without regard to ASCII case |
| Roster.Press | team_bot.py:180-219 | the three buttons of both versions (lines 185-224 of `team_bot_v4.5.py` are the same): a join is refused on a duplicate regular entry, then on a full list, else appends a regular entry rated 5; a +1 is refused only on a full list, else appends a +1 entry rated 5; a leave removes every entry of the user (the definition; `JoinRules`, `JoinTwiceRefused`, `PlusOneRepeats`, `LeaveRules`, `LeaveUndoesJoin` and `PressKeepsInvariant` state its properties) |
| Roster.RosterInvariant | team_bot.py:180-233 | what every handler keeps true of the three fields: at most twelve entries, an open list has fewer than twelve (it closes at twelve, line 232-233) and a day, every rating is 5, and no username has two regular entries (the definition; `PressKeepsInvariant` and the handlers' `Valid()` postconditions keep it) |
| Roster.RemoveUser | team_bot.py:218 | after leaving, no entry of that username remains |
| Roster.RemoveUserCount | team_bot.py:216-218 | leaving removes every entry of the user and keeps every other entry as often as it was there |
| Roster.RemoveAbsentUser | team_bot.py:216-218 | leaving when the user has no entry changes nothing |
| Roster.MainsPlusOnesPartition | team_bot.py:281-282 | the regular and the +1 entries together are exactly the roster |
| Roster.ConsKeepsUniqueRegulars | team_bot.py:182 | adding a +1, or a regular entry for a name with no regular entry, keeps regular entries unique |
| Roster.FilterKeepsNoRegularNamed | team_bot.py:218 | filtering never brings back a regular entry for a name |
| Roster.FilterKeepsUniqueRegulars | team_bot.py:218 | any filter of a roster with unique regular entries keeps them unique |
| Roster.PressKeepsInvariant | team_bot.py:180-219 | an accepted press on an open list leaves at most twelve entries, all rated 5, with no repeated regular entry |
| Roster.JoinRules | team_bot.py:180-198 | a join is refused exactly when the user already has a regular entry or the list is full, and a duplicate is told so even on a full list; an accepted join appends one regular entry rated 5 and keeps the earlier ones |
| Roster.JoinTwiceRefused | team_bot.py:182-185 | the same user's second join is refused as a duplicate |
| Roster.PlusOneRepeats | team_bot.py:201-213 | +1 has no duplicate check: the same user can add two +1 entries in a row |
| Roster.LeaveRules | team_bot.py:216-218 | leaving is always accepted, removes every entry of the user, keeps every other entry, and leaving twice is leaving once |
| Roster.LeaveUndoesJoin | team_bot.py:194-218 | for a user with no entry, joining (either way) and then leaving restores the roster |
| PlayerList.DetailsHaveNoNewline | team_bot.py:26-37 | the day, time and place texts hold no newline |
| PlayerList.HeaderHasNoNewline | team_bot.py:75-76 | the header line and "In List :" hold no newline |
| PlayerList.RenderPlayerList | team_bot.py:66-91 | the list text: "No play day selected" without a day, else the header, "In List :" and twelve numbered lines joined by newlines (the definition; `FormatPlayerList` computes it by the loop and `PlayerListLines` states its lines) |
| PlayerList.FormatPlayerList | team_bot.py:66-91 | the loop builds the list text for the day and roster; with no day it is "No play day selected" |
| PlayerList.EntryLineHasNoNewline | team_bot.py:80-89 | a numbered line holds no newline when no username does |
| PlayerList.ListLinesHaveNoNewline | team_bot.py:74-89 | no line of the list holds a newline when no username does |
| PlayerList.PlayerListSplits | team_bot.py:74-91 | splitting the list text at newlines gives back the header, "In List :" and the twelve numbered lines |
| PlayerList.NumberedLinesAt | team_bot.py:80-89 | numbered line i is "i. name", with " (+1)" for a +1 entry, when entry i exists, and "i." otherwise |
| PlayerList.PlayerListLines | team_bot.py:66-91 | the list text reads as a header, "In List :" and exactly twelve lines; line i names entry i when there is one and is "i." otherwise |
| TeamBot.Draft | team_bot.py:292-298 | the main players alternate, even positions to Team Black, odd to Team White, each side taking one only while it has fewer than six (the definition; `DraftKeepsEveryone` and `DraftMainPlayers` state its properties) |
| TeamBot.Fill | team_bot.py:301-306 | each +1 entry in turn goes to Team Black while it has fewer than six, else to Team White while it has fewer than six, else nowhere (the definition; `FillKeepsEveryone` and `AddPlusOnes` state its properties) |
| TeamBot.BalancedTeams | team_bot.py:270-317 | the teams: a roster that is not twelve long is cut after six, otherwise the sorted main players are drafted and the shuffled +1 entries fill (the definition; `FullRosterShape`, `FullRosterSplitsSixSix`, `FullRosterDraftsInJoinOrder` and `CreateBalancedTeams` state its properties) |
| TeamBot.DraftKeepsEveryone | team_bot.py:292-298 | with at most twelve main players the capacity guards never drop one: the draft is a plain alternation |
| TeamBot.FillKeepsEveryone | team_bot.py:301-306 | when everything fits in twelve, no +1 is dropped: Team Black takes the first ones up to six and Team White the rest |
| TeamBot.FullRosterShape | team_bot.py:280-306 | with twelve entries and any shuffle, Team Black is the sorted main players at even positions and then the first +1 entries, and Team White the odd positions and the remaining +1 entries |
| TeamBot.FullRosterSplitsSixSix | team_bot.py:276-317 | with twelve entries and any shuffle, both teams have six members and together they are the roster |
| TeamBot.DraftThenFill | team_bot.py:288-306 | on twelve players the draft and the +1 loop give six a side, with the main players alternating |
| TeamBot.SixEachSizes | team_bot.py:288-306 | with m main players and p +1 entries adding up to twelve, topping Team Black up to six leaves exactly six for Team White |
| TeamBot.TeamsArePermutation | team_bot.py:292-306 | the alternated main players and the +1 entries cut at any point together hold the roster |
| TeamBot.FullRosterDraftsInJoinOrder | team_bot.py:285-306 | every rating is 5 and the sort is stable, so the main players are drafted in join order, with even indices going to Team Black |
| TeamBot.PopKeepsEntries | team_bot.py:310 | `pop` removes the last entry and nothing else |
| TeamBot.Rebalance | team_bot.py:308-312 | the loops keep the entries, bring a total of twelve to six and six, and change nothing when both teams already have six |
| TeamBot.DraftMainPlayers | team_bot.py:288-298 | the loop computes the guarded draft |
| TeamBot.AddPlusOnes | team_bot.py:300-306 | the loop computes the guarded +1 placement |
| TeamBot.CreateBalancedTeams | team_bot.py:270-317 | any length other than twelve returns the roster cut after its first six entries; twelve entries give six a side, together the roster |
| TeamBot.TeamLine | team_bot.py:245 | a member's line: "- ", the name, and " (+1)" directly behind a +1 entry's name (the definition; `TeamLinesHaveNoNewline` and `TeamLineCanBeAmbiguous` state its properties) |
| TeamBot.TeamsMessage | team_bot.py:243-252 | the teams text: the Team Black title, its member lines, an empty line, the Team White title and its member lines (the definition; `TeamsMessageLines` states its lines) |
| TeamBot.TeamLinesHaveNoNewline | team_bot.py:245 | no team line holds a newline when no username does |
| TeamBot.TeamsMessageLines | team_bot.py:243-251 | the teams text reads as the Team Black title, one line per member, an empty line, the Team White title and one line per member |
| TeamBot.TitlesHaveNoNewline | team_bot.py:244-248 | the two team titles hold no newline |
| TeamBot.TeamLineCanBeAmbiguous | team_bot.py:245 | a +1 entry for "Sam" and a regular entry for "Sam (+1)" print the same team line |
| TeamBot.FootballPlayBot.constructor | team_bot.py:10-16 | a new bot has no players, no open list, no day and no stored message |
| TeamBot.FootballPlayBot.Valid | team_bot.py:10-16 | the bot's fields satisfy `RosterInvariant`; every handler requires and ensures it |
| TeamBot.FootballPlayBot.StartPlay | team_bot.py:93-164 | a refused sender or an open list gets its reply with no state change; a text naming no day gets the usage reply with no state change; otherwise an empty list opens for that day and is shown with its buttons |
| TeamBot.FootballPlayBot.HandlePlayResponse | team_bot.py:166-268 | a press on a closed list only shows "No active play list" and changes nothing; on an open list it applies `Press`; a refusal only alerts; below twelve the list is shown again; at twelve the list closes, and the teams are announced and stored |
| TeamBot.FootballPlayBot.ShowOrClose | team_bot.py:231-268 | a list that reached twelve closes, and its six-a-side teams are announced and stored; the unbalanced-teams error cannot occur; otherwise the list is shown again |
| TeamBot.FootballPlayBot.CancelPlay | team_bot.py:319-356 | a refused sender changes nothing; otherwise the list is closed and emptied and the day forgotten |
| TeamBot.CancelTwice | team_bot.py:319-356 | cancelling twice gives the same answer both times and the state of one cancel: a refused sender leaves the bot unchanged, an accepted one leaves the list closed, empty and without a day, and the stored teams text is kept either way |
| TeamBotV45.BalancedTeams | team_bot_v4.5.py:276-301 | the teams: the sorted main players alternated, then the shuffled +1 entries alternated from Team Black again, with no cap and no rebalance (the definition; `CreateBalancedTeams`, `TeamSizes`, `FullRosterSixSixIffEvenMains` and `DraftsInJoinOrder` state its properties) |
| TeamBotV45.AlternateStep | team_bot_v4.5.py:285-289 | one more loop step adds entry i to the side its parity names |
| TeamBotV45.Deal | team_bot_v4.5.py:285-299 | each indexed loop appends the even positions to Team Black and the odd ones to Team White |
| TeamBotV45.CreateBalancedTeams | team_bot_v4.5.py:271-301 | the loops compute the sorted main players alternated, then the shuffled +1 entries alternated from Team Black again |
| TeamBotV45.TeamSizes | team_bot_v4.5.py:271-301 | with m main players and p +1 entries, Team Black gets ceil(m/2)+ceil(p/2) and Team White floor(m/2)+floor(p/2), and together the teams are the roster |
| TeamBotV45.AlternatedHalves | team_bot_v4.5.py:284-299 | two alternated lists give the first side the rounded-up halves and keep every entry |
| TeamBotV45.FullRosterSixSixIffEvenMains | team_bot_v4.5.py:271-301 | with twelve entries the teams are six and six exactly when the number of main players is even, and seven against five when it is odd |
| TeamBotV45.FullRosterSizes | team_bot_v4.5.py:284-299 | the team sizes for m main and p +1 players adding up to twelve: six each exactly when m is even, otherwise seven and five |
| TeamBotV45.DraftsInJoinOrder | team_bot_v4.5.py:277-299 | every rating is 5 and the sort is stable, so the main players alternate in join order |
| TeamBotV45.TeamLine | team_bot_v4.5.py:245 | a member's line: "- ", the name, a space, and "(+1)" for a +1 entry (the definition; `TeamLineInjective` and `TeamLinesHaveNoNewline` state its properties) |
| TeamBotV45.TeamLineInjective | team_bot_v4.5.py:245 | a team line tells the name and whether the entry is a +1 |
| TeamBotV45.TeamLinesHaveNoNewline | team_bot_v4.5.py:245 | no team line holds a newline when no username does |
| TeamBotV45.TitlesHaveNoNewline | team_bot_v4.5.py:241-250 | the heading and the team titles hold no newline |
| TeamBotV45.FullResponse | team_bot_v4.5.py:241-256 | the announcement, stored and shown: the full-list heading, an empty line, then the Team Black and Team White blocks separated by an empty line (the definition; `FullResponseLines` states its lines) |
| TeamBotV45.FullResponseLines | team_bot_v4.5.py:241-253 | the announcement reads as the heading, an empty line, the Team Black block, an empty line and the Team White block |
| TeamBotV45.FootballPlayBot.constructor | team_bot_v4.5.py:10-16 | a new bot has no players, no open list, no day and no stored message |
| TeamBotV45.FootballPlayBot.Valid | team_bot_v4.5.py:10-16 | the bot's fields satisfy `RosterInvariant`, an open list has no stored announcement (start clears it at line 99), and a stored announcement starts with the full-list heading (it is only ever set at line 256), so the truthiness test at line 173 always passes; every handler requires and ensures it |
| TeamBotV45.FootballPlayBot.StartPlay | team_bot_v4.5.py:93-164 | the stored announcement is always dropped; a refused sender and a text naming no day (even while a list is open) change nothing else; a valid day while a list is open is refused; otherwise an empty list opens for that day |
| TeamBotV45.FootballPlayBot.HandlePlayResponse | team_bot_v4.5.py:166-269 | a press on a closed list changes nothing and shows the stored announcement if there is one, "No active play list" otherwise; on an open list it applies `Press`; at twelve the list closes and the announcement is stored and shown |
| TeamBotV45.FootballPlayBot.ShowOrClose | team_bot_v4.5.py:236-269 | a list that reached twelve closes, and its announcement, which starts with the full-list heading, is stored and shown; otherwise the list is shown again |
| TeamBotV45.FootballPlayBot.CancelPlay | team_bot_v4.5.py:303-341 | the stored announcement is dropped even when the sender is refused; otherwise the list is closed and emptied and the day forgotten |
| TeamBotV45.CancelTwice | team_bot_v4.5.py:303-341 | cancelling twice gives the same answer both times and the state of one cancel: the stored announcement is dropped, a refused sender keeps the roster, the open flag and the day, and an accepted one leaves the list closed, empty and without a day |

## Left out

- Telegram I/O is not modelled: `reply_text`, `edit_message_text`, `query.answer`, the inline keyboard and `run_polling`. Each handler returns an `Effect` instead.
- The first `query.answer()` in the button handler is Telegram I/O and is not modelled. The model returns the alert the code asks for at the later `query.answer(text=..., show_alert=True)` calls, whether or not Telegram accepts a second answer to the same callback query.
- The administrator check through `chat.get_member` is an input `Auth`. It names four cases: a chat that is not a group or supergroup (a private chat or a channel, which is not checked), a group administrator, a group member, or a lookup that raised with its message.
- `async`/`await` and concurrency are not modelled. Each handler runs as one atomic step.
- `random.shuffle` is a caller-supplied function that keeps the entries of its argument (`IsShuffle`), so every team property holds for every shuffle.
- Logging, log files, `os.makedirs`, `load_dotenv`, the token, `run` and `main` are plumbing with no effect on the state.
- Neither bot file implements rate limiting, update debouncing, persistence or typed error results, so the model has none of them. There is no explicit join-time field either: players with equal ratings keep roster order through the stable sort (`FullRosterDraftsInJoinOrder`, `DraftsInJoinOrder`).
- Roster.ParseDay: Python's `str.lower` is modelled as ASCII lower-casing that keeps the length (`Text.Lower`). Python's is not always length-preserving: U+0130 lowers to the two code points "i" and U+0307, and U+212A (Kelvin sign) lowers to "k". Neither "/play wed" nor "/play sat" contains an 'i' or a 'k', and every other non-ASCII character lowers to non-ASCII ones. So a text starts with one of the two prefixes after Python's lowering exactly when its first nine characters spell it after ASCII lowering, and the day found is the same.
- Roster.ParseDay: its own contract only bounds the length of the text. What it recognises is stated by `ParseDayExamples`, `ParseDayIgnoresRest` and `ParseDayIgnoresCase`.
- `str.split` is modelled only for the newline separator, as the inverse of `"\n".join`, which is the only join the bot uses.
- The whitespace set of `Text.IsSpace` is Python's `str.isspace` for single code points.
- The model follows the code as written. Two of its behaviours go against a docstring:
  - `team_bot.py` returns the roster cut after six entries when it does not have twelve, although the `create_balanced_teams` docstring at `team_bot.py:271-274` promises exactly six players a side;
  - `team_bot_v4.5.py` returns seven against five when the number of main players is odd, although its docstring at `team_bot_v4.5.py:272-274` promises balanced teams.
- Three further facts of the code, modelled as written:
  - +1 entries have no duplicate check;
  - leaving when absent is a silent no-op;
  - a closed list keeps its roster.
- `team_bot.py` stores `last_team_message` but never reads or clears it. The model stores it the same way.
