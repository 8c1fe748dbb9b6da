/** The entities both versions of FootballPlayBot share, and the roster rules
    of a button press (join, join as +1, leave), which the two versions
    implement with the same code. */
module Roster {
  import opened Text
  import opened Sequences

  datatype Option<T> = None | Some(value: T)

  /** `self.max_players`: the list closes when it holds this many entries. */
  const MaxPlayers: nat := 12
  /** The size each team is meant to have. */
  const TeamSize: nat := 6
  /** Every entry is created with this rating. */
  const DefaultRating: int := 5

  /** One entry of the list: a username, a rating and whether it is a +1. */
  datatype Player = Player(username: string, rating: int, isPlusOne: bool)

  /** The keys of `self.play_details`. */
  datatype Day = Wed | Sat

  /** The Telegram user who pressed a button; `None` stands for a missing
      username or last name. */
  datatype User = User(username: Option<string>, firstName: string, lastName: Option<string>)

  /** What the administrator check found: a chat whose type is neither
      "group" nor "supergroup" (a private chat or a channel) is not checked,
      a group member must be an administrator or the creator, and the lookup
      itself can raise. */
  datatype Auth = NotAGroup | GroupAdmin | GroupMember | LookupFailed(reason: string)

  /** What a handler asks the chat to do, in place of the Telegram calls:
      `reply_text`, `edit_message_text` (with or without the three buttons),
      or `query.answer(..., show_alert=True)`. */
  datatype Effect =
    | Reply(text: string, withButtons: bool)
    | Edit(text: string, withButtons: bool)
    | Alert(text: string)

  /** The `callback_data` of the three buttons. */
  const JoinPlay := "join_play"
  const JoinPlayPlusOne := "join_play_plus_one"
  const CancelJoin := "cancel_join"

  const UsageText := "Please use:\n/play Wed\n/play Sat"
  const NoActiveList := "No active play list. Use /play Wed or /play Sat"
  const ListFullAlert := "Play list is full!"
  const FullHeading := "Play list is full! Teams have been created:"
  const FullPrefix := FullHeading + "\n\n"

  function AlreadyOnList(name: string): string {
    name + ", you're already on the list!"
  }

  /** The reply that ends a start or cancel command before it changes anything,
      or `None` when the sender may go on. `action` is "start" or "cancel". */
  function AdminRejection(auth: Auth, action: string): (r: Option<Effect>)
    ensures r.None? <==> auth.NotAGroup? || auth.GroupAdmin?
    ensures r.Some? ==> r.value.Reply? && !r.value.withButtons
    ensures auth.LookupFailed? ==> r == Some(Reply("Error checking admin status: " + auth.reason, false))
  {
    match auth
    case NotAGroup => None
    case GroupAdmin => None
    case GroupMember =>
      Some(Reply("\U{274C} Sorry, only group administrators can " + action + " a play list.", false))
    case LookupFailed(reason) => Some(Reply("Error checking admin status: " + reason, false))
  }

  /** First name, a space, then the last name or nothing when it is missing. */
  function FullName(u: User): string {
    u.firstName + " " + (if u.lastName.Some? then u.lastName.value else "")
  }

  /** The name an entry is recorded under: the username when it is set and
      not empty, otherwise the full name with the surrounding whitespace removed. */
  function DisplayName(u: User): (name: string)
    ensures u.username.Some? && u.username.value != "" ==> name == u.username.value
    ensures u.username.None? || u.username.value == "" ==> StrippedFrom(FullName(u), name)
  {
    if u.username.Some? && u.username.value != "" then u.username.value else Strip(FullName(u))
  }

  /** The day a `/play` command names: the lower-cased text must start with
      "/play wed" or "/play sat"; whatever follows is ignored. */
  function ParseDay(text: string): (day: Option<Day>)
    ensures day.Some? ==> |text| >= 9
  {
    var lowered := Lower(text);
    if StartsWith(lowered, "/play wed") then Some(Wed)
    else if StartsWith(lowered, "/play sat") then Some(Sat)
    else None
  }

  lemma {:induction false} ParseDayExamples()
    ensures ParseDay("/play Wed") == Some(Wed)
    ensures ParseDay("/PLAY SAT please") == Some(Sat)
    ensures ParseDay("/play") == None
    ensures ParseDay("/play Fri") == None
    ensures ParseDay("/playwed") == None
  {
    assert Lower("/play Wed")[..9] == "/play wed";
    assert Lower("/PLAY SAT please")[..9] == "/play sat";
    assert Lower("/play Fri")[6] == 'f';
    assert Lower("/playwed")[5] == 'w';
  }

  /** Text after the day never changes the day. */
  lemma {:induction false} ParseDayIgnoresRest(text: string, rest: string)
    requires ParseDay(text).Some?
    ensures ParseDay(text + rest) == ParseDay(text)
  {
    var a, b := Lower(text), Lower(text + rest);
    assert b[..9] == a[..9] by {
      forall i | 0 <= i < 9 ensures b[i] == a[i] {
        assert (text + rest)[i] == text[i];
      }
    }
  }

  /** The day is read without regard to case. */
  lemma {:induction false} ParseDayIgnoresCase(text: string)
    ensures ParseDay(Lower(text)) == ParseDay(text)
  {
    assert Lower(Lower(text)) == Lower(text);
  }

  /** Some regular (non-+1) entry carries the username `name`. */
  predicate HasRegularEntry(players: seq<Player>, name: string) {
    exists i :: 0 <= i < |players| && players[i].username == name && !players[i].isPlusOne
  }

  predicate HasAnyEntry(players: seq<Player>, name: string) {
    exists i :: 0 <= i < |players| && players[i].username == name
  }

  function OtherThan(name: string): Player -> bool {
    (p: Player) => p.username != name
  }

  /** Every entry whose username is not `name`, regular and +1 alike, in roster order. */
  function RemoveUser(players: seq<Player>, name: string): (r: seq<Player>)
    ensures !HasAnyEntry(r, name)
  {
    Filter(players, OtherThan(name))
  }

  /** Leaving removes every entry of the user and keeps every other entry as often as it was there. */
  lemma {:induction false} RemoveUserCount(players: seq<Player>, name: string, p: Player)
    ensures multiset(RemoveUser(players, name))[p] == if p.username == name then 0 else multiset(players)[p]
  {
    FilterCount(players, OtherThan(name), p);
  }

  /** Leaving when the user has no entry changes nothing. */
  lemma {:induction false} RemoveAbsentUser(players: seq<Player>, name: string)
    requires !HasAnyEntry(players, name)
    ensures RemoveUser(players, name) == players
  {
    FilterAll(players, OtherThan(name));
  }

  predicate IsMain(p: Player) {
    !p.isPlusOne
  }

  predicate IsPlusOne(p: Player) {
    p.isPlusOne
  }

  /** The regular entries, in roster order. */
  function Mains(players: seq<Player>): seq<Player> {
    Filter(players, IsMain)
  }

  /** The +1 entries, in roster order. */
  function PlusOnes(players: seq<Player>): seq<Player> {
    Filter(players, IsPlusOne)
  }

  /** The main and the +1 entries together are the roster. */
  lemma {:induction false} MainsPlusOnesPartition(players: seq<Player>)
    ensures multiset(Mains(players)) + multiset(PlusOnes(players)) == multiset(players)
    ensures |Mains(players)| + |PlusOnes(players)| == |players|
  {
    forall p ensures (multiset(Mains(players)) + multiset(PlusOnes(players)))[p] == multiset(players)[p] {
      FilterCount(players, IsMain, p);
      FilterCount(players, IsPlusOne, p);
    }
    assert multiset(Mains(players)) + multiset(PlusOnes(players)) == multiset(players);
    assert |multiset(Mains(players)) + multiset(PlusOnes(players))| == |multiset(players)|;
  }

  /** `random.shuffle` may put the entries in any order, and only reorders them. */
  ghost predicate IsShuffle(shuffle: seq<Player> -> seq<Player>) {
    forall s :: multiset(shuffle(s)) == multiset(s)
  }

  ghost predicate DefaultRated(players: seq<Player>) {
    forall i :: 0 <= i < |players| ==> players[i].rating == DefaultRating
  }

  /** No username has two regular (non-+1) entries; +1 entries may repeat. */
  ghost predicate UniqueRegulars(players: seq<Player>) {
    forall i, j :: 0 <= i < j < |players| && !players[i].isPlusOne && !players[j].isPlusOne
      ==> players[i].username != players[j].username
  }

  /** What the handlers keep true of the four fields: at most twelve entries, an
      open list has fewer than twelve and a day, every entry is rated 5 and no
      user is on the list twice other than as +1. */
  ghost predicate RosterInvariant(players: seq<Player>, open: bool, day: Option<Day>) {
    |players| <= MaxPlayers
    && (open ==> |players| < MaxPlayers && day.Some?)
    && DefaultRated(players)
    && UniqueRegulars(players)
  }

  /** No regular entry of `players` is for `name`. */
  ghost predicate NoRegularNamed(players: seq<Player>, name: string) {
    forall i :: 0 <= i < |players| && !players[i].isPlusOne ==> players[i].username != name
  }

  lemma {:induction false} ConsKeepsUniqueRegulars(x: Player, rest: seq<Player>)
    requires UniqueRegulars(rest)
    requires x.isPlusOne || NoRegularNamed(rest, x.username)
    ensures UniqueRegulars([x] + rest)
  {
    var r := [x] + rest;
    forall i, j | 0 <= i < j < |r| && !r[i].isPlusOne && !r[j].isPlusOne
      ensures r[i].username != r[j].username
    {
      assert r[j] == rest[j - 1];
      if i > 0 {
        assert r[i] == rest[i - 1];
      }
    }
  }

  lemma {:induction false} FilterKeepsNoRegularNamed(players: seq<Player>, keep: Player -> bool, name: string)
    requires NoRegularNamed(players, name)
    ensures NoRegularNamed(Filter(players, keep), name)
  {
    var r := Filter(players, keep);
    forall i | 0 <= i < |r| && !r[i].isPlusOne ensures r[i].username != name {
      assert r[i] in players;
    }
  }

  lemma {:induction false} FilterKeepsUniqueRegulars(players: seq<Player>, keep: Player -> bool)
    requires UniqueRegulars(players)
    ensures UniqueRegulars(Filter(players, keep))
  {
    if players != [] {
      var x, rest := players[0], players[1..];
      assert UniqueRegulars(rest) by {
        forall i | 0 <= i < |rest| ensures rest[i] == players[i + 1] { }
      }
      FilterKeepsUniqueRegulars(rest, keep);
      if keep(x) {
        if !x.isPlusOne {
          assert NoRegularNamed(rest, x.username) by {
            forall i | 0 <= i < |rest| ensures rest[i] == players[i + 1] { }
          }
          FilterKeepsNoRegularNamed(rest, keep, x.username);
        }
        ConsKeepsUniqueRegulars(x, Filter(rest, keep));
      }
    }
  }

  /** What a button press does to the roster of an open list. */
  datatype PressOutcome = Rejected(alert: string) | Accepted(roster: seq<Player>)

  function Press(players: seq<Player>, data: string, name: string): PressOutcome {
    if data == JoinPlay then
      if HasRegularEntry(players, name) then Rejected(AlreadyOnList(name))
      else if |players| >= MaxPlayers then Rejected(ListFullAlert)
      else Accepted(players + [Player(name, DefaultRating, false)])
    else if data == JoinPlayPlusOne then
      if |players| >= MaxPlayers then Rejected(ListFullAlert)
      else Accepted(players + [Player(name, DefaultRating, true)])
    else if data == CancelJoin then Accepted(RemoveUser(players, name))
    else Accepted(players)
  }

  /** A press on an open list keeps the roster within twelve, rated 5 and free
      of repeated regular entries. */
  lemma {:induction false} PressKeepsInvariant(players: seq<Player>, data: string, name: string)
    requires |players| < MaxPlayers && DefaultRated(players) && UniqueRegulars(players)
    ensures Press(players, data, name).Accepted? ==>
      var r := Press(players, data, name).roster;
      |r| <= MaxPlayers && DefaultRated(r) && UniqueRegulars(r)
  {
    if data == CancelJoin {
      var r := RemoveUser(players, name);
      FilterKeepsUniqueRegulars(players, OtherThan(name));
      forall i | 0 <= i < |r| ensures r[i].rating == DefaultRating {
        assert r[i] in players;
      }
    }
  }

  /** A join is refused exactly when the user already has a regular entry or the
      list is full; the duplicate check comes first, so a duplicate on a full
      list is told it is already on the list. An accepted join appends one entry
      and leaves the earlier ones as they were. */
  lemma {:induction false} JoinRules(players: seq<Player>, name: string)
    ensures Press(players, JoinPlay, name).Rejected? <==> HasRegularEntry(players, name) || |players| >= MaxPlayers
    ensures HasRegularEntry(players, name) ==> Press(players, JoinPlay, name) == Rejected(AlreadyOnList(name))
    ensures Press(players, JoinPlay, name).Accepted? ==>
      var r := Press(players, JoinPlay, name).roster;
      |r| == |players| + 1 && r[..|players|] == players && r[|players|] == Player(name, DefaultRating, false)
  {
  }

  /** After a successful join the same user's next join is refused as a duplicate. */
  lemma {:induction false} JoinTwiceRefused(players: seq<Player>, name: string)
    requires Press(players, JoinPlay, name).Accepted?
    ensures Press(Press(players, JoinPlay, name).roster, JoinPlay, name) == Rejected(AlreadyOnList(name))
  {
    var r := Press(players, JoinPlay, name).roster;
    assert r[|players|].username == name && !r[|players|].isPlusOne;
  }

  /** +1 has no duplicate check: the same user may add +1 entries one after the other. */
  lemma {:induction false} PlusOneRepeats(players: seq<Player>, name: string)
    requires |players| + 2 <= MaxPlayers
    ensures var once := Press(players, JoinPlayPlusOne, name);
      once.Accepted? && Press(once.roster, JoinPlayPlusOne, name)
        == Accepted(players + [Player(name, DefaultRating, true), Player(name, DefaultRating, true)])
  {
  }

  /** Leaving is always accepted, removes every entry of the user, regular or
      +1, and keeps the others in their order; leaving twice is leaving once. */
  lemma {:induction false} LeaveRules(players: seq<Player>, name: string)
    ensures Press(players, CancelJoin, name) == Accepted(RemoveUser(players, name))
    ensures !HasAnyEntry(RemoveUser(players, name), name)
    ensures forall q: Player :: q.username != name ==> multiset(RemoveUser(players, name))[q] == multiset(players)[q]
    ensures RemoveUser(RemoveUser(players, name), name) == RemoveUser(players, name)
  {
    forall q: Player | q.username != name
      ensures multiset(RemoveUser(players, name))[q] == multiset(players)[q]
    {
      RemoveUserCount(players, name, q);
    }
    RemoveAbsentUser(RemoveUser(players, name), name);
  }

  /** Leaving undoes joining, for a user who had no entry before. */
  lemma {:induction false} LeaveUndoesJoin(players: seq<Player>, data: string, name: string)
    requires data == JoinPlay || data == JoinPlayPlusOne
    requires !HasAnyEntry(players, name)
    requires Press(players, data, name).Accepted?
    ensures Press(Press(players, data, name).roster, CancelJoin, name) == Accepted(players)
  {
    var entry := Player(name, DefaultRating, data == JoinPlayPlusOne);
    assert Press(players, data, name).roster == players + [entry];
    FilterAppend(players, [entry], OtherThan(name));
    RemoveAbsentUser(players, name);
    assert Filter([entry], OtherThan(name)) == [];
  }
}
