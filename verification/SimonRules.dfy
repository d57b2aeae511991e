/**
 The game of Simon on top of a room: what module/server_daemon/src/EXAMPLE_Simon.cpp:28-63, 86-112,
 126-157, 167-185 do, stated on values, and what every run of a game keeps true.
 */
module SimonRules {
  import opened Members
  import opened RoomRules
  import opened Wrappers

  // ----- Trimming ----------------------------------------------------------------------------------

  /** The spaces of the classic locale. */
  predicate IsSpace(c: char) {
    c == ' ' || '\t' <= c <= '\r'
  }

  function TrimLeft(s: string): string {
    if s != [] && IsSpace(s[0]) then TrimLeft(s[1..]) else s
  }

  function TrimRight(s: string): string {
    if s != [] && IsSpace(s[|s| - 1]) then TrimRight(s[..|s| - 1]) else s
  }

  function Trim(s: string): string {
    TrimRight(TrimLeft(s))
  }

  /** Nothing but blanks, tabs and the four ways to begin a new line or page. */
  ghost predicate AllSpaces(s: string) {
    forall c :: c in s ==> c in " \t\n\U{B}\U{C}\r"
  }

  lemma {:induction false} TrimLeftSpaces(pre: string, s: string)
    requires AllSpaces(pre)
    ensures TrimLeft(pre + s) == TrimLeft(s)
  {
    if pre == [] {
      assert pre + s == s;
    } else {
      assert pre[0] in pre && (pre + s)[1..] == pre[1..] + s;
      TrimLeftSpaces(pre[1..], s);
    }
  }

  lemma {:induction false} TrimRightSpaces(s: string, post: string)
    requires AllSpaces(post)
    ensures TrimRight(s + post) == TrimRight(s)
  {
    if post == [] {
      assert s + post == s;
    } else {
      var n := |post| - 1;
      assert post[n] in post && (s + post)[..|s| + n] == s + post[..n];
      TrimRightSpaces(s, post[..n]);
    }
  }

  lemma {:induction false} TrimLeftPrefix(s: string, post: string)
    ensures TrimLeft(s) != [] ==> TrimLeft(s + post) == TrimLeft(s) + post
    ensures TrimLeft(s) == [] ==> TrimLeft(s + post) == TrimLeft(post)
  {
    if s == [] {
      assert s + post == post;
    } else {
      assert (s + post)[1..] == s[1..] + post;
      TrimLeftPrefix(s[1..], post);
    }
  }

  /** Spaces around what Simon said do not make it a different answer. */
  lemma SpacesAreForgiven(pre: string, message: string, post: string)
    requires AllSpaces(pre) && AllSpaces(post)
    ensures Trim(pre + message + post) == Trim(message)
  {
    assert pre + message + post == pre + (message + post);
    TrimLeftSpaces(pre, message + post);
    TrimLeftPrefix(message, post);
    if TrimLeft(message) == [] {
      TrimLeftSpaces(post, []);
      assert post + [] == post;
    } else {
      TrimRightSpaces(TrimLeft(message), post);
    }
  }

  /** What is trimmed away is spaces, and what is left neither begins nor ends with one. */
  lemma TrimDivides(s: string) returns (pre: string, post: string)
    ensures AllSpaces(pre) && AllSpaces(post) && s == pre + Trim(s) + post && IsTrimmed(Trim(s))
  {
    pre := LeftSpaces(s);
    post := RightSpaces(TrimLeft(s));
    assert s == pre + (Trim(s) + post);
  }

  ghost predicate IsTrimmed(s: string) {
    s != "" ==> !AllSpaces([s[0]]) && !AllSpaces([s[|s| - 1]])
  }

  lemma {:induction false} LeftSpaces(s: string) returns (pre: string)
    ensures AllSpaces(pre) && s == pre + TrimLeft(s) && (TrimLeft(s) != "" ==> !AllSpaces([TrimLeft(s)[0]]))
  {
    if s != [] && IsSpace(s[0]) {
      pre := LeftSpaces(s[1..]);
      assert s == [s[0]] + s[1..];
      pre := [s[0]] + pre;
    } else {
      pre := [];
      if s != [] {
        assert s[0] in [s[0]];
      }
    }
  }

  lemma {:induction false} RightSpaces(s: string) returns (post: string)
    ensures AllSpaces(post) && s == TrimRight(s) + post
    ensures TrimRight(s) != "" ==> TrimRight(s)[0] == s[0] && !AllSpaces([TrimRight(s)[|TrimRight(s)| - 1]])
  {
    var n := |s| - 1;
    if s != [] && IsSpace(s[n]) {
      post := RightSpaces(s[..n]);
      assert s == s[..n] + [s[n]];
      post := post + [s[n]];
    } else {
      post := [];
      if s != [] {
        assert s[n] in [s[n]];
      }
    }
  }

  /** That determines it. */
  lemma TrimIsUnique(s: string, pre: string, t: string, post: string)
    requires AllSpaces(pre) && AllSpaces(post) && s == pre + t + post && IsTrimmed(t)
    ensures Trim(s) == t
  {
    SpacesAreForgiven(pre, t, post);
    if t != "" {
      assert AllSpaces([t[0]]) <==> IsSpace(t[0]);
      assert AllSpaces([t[|t| - 1]]) <==> IsSpace(t[|t| - 1]);
    }
  }

  /** The same text, but for spaces before and after it. */
  ghost predicate SameUpToSpaces(a: string, b: string) {
    exists text :: IsPadded(a, text) && IsPadded(b, text)
  }

  ghost predicate IsPadded(s: string, text: string) {
    exists pre, post :: AllSpaces(pre) && AllSpaces(post) && s == pre + text + post
  }

  /** Two messages are compared as equal exactly if they are that. */
  lemma SameUpToSpacesIff(a: string, b: string)
    ensures Trim(a) == Trim(b) <==> SameUpToSpaces(a, b)
  {
    var pre, post := TrimDivides(a);
    var pre', post' := TrimDivides(b);
    assert IsPadded(a, Trim(a)) && IsPadded(b, Trim(b));
    if text :| IsPadded(a, text) && IsPadded(b, text) {
      PaddingIsForgiven(a, text);
      PaddingIsForgiven(b, text);
    }
  }

  lemma PaddingIsForgiven(s: string, text: string)
    requires IsPadded(s, text)
    ensures Trim(s) == Trim(text)
  {
    var pre, post :| AllSpaces(pre) && AllSpaces(post) && s == pre + text + post;
    SpacesAreForgiven(pre, text, post);
  }

  // ----- The game ----------------------------------------------------------------------------------

  datatype SimonState = SimonState(room: RoomState, simon: UserId, message: string, incomplete: set<UserId>)

  ghost function Active(room: RoomState): set<UserId> {
    IdsOf(room.members, ActivePlayers)
  }

  ghost function DisqualifyAll(room: RoomState, ids: set<UserId>): RoomState {
    var ms := room.members;
    room.(members := map id | id in ms ::
            if id in ids && ms[id].IsPlayer() then ms[id].(disqualified := true) else ms[id])
  }

  /** One active player left ends the game; with two left one of them is only congratulated. */
  ghost function CheckWin(room: RoomState): RoomState {
    if |Active(room)| == 1 then EndGame(room) else room
  }

  ghost function EndRound(s: SimonState): SimonState {
    s.(room := CheckWin(DisqualifyAll(s.room, s.incomplete)))
  }

  ghost function NextRound(s: SimonState, message: string): SimonState {
    s.(message := message, incomplete := Active(s.room) - {s.simon})
  }

  ghost function SimonSays(s: SimonState, message: string): SimonState {
    var ended := EndRound(s);
    if ended.room.gameStarted then NextRound(ended, Trim(message)) else ended
  }

  ghost function Answer(s: SimonState, id: UserId, message: string): SimonState
    requires id in s.room.members
  {
    var judged := if Trim(message) != s.message then s.(room := CheckWin(Disqualify(s.room, id))) else s;
    judged.(incomplete := s.incomplete - {id})
  }

  /** A message somebody sends to the room; the controller gets to see those of active players during a game. */
  ghost function Say(s: SimonState, id: UserId, message: string): SimonState {
    if !s.room.gameStarted || id !in Active(s.room) then s
    else if id == s.simon then SimonSays(s, message)
    else if id in s.incomplete then Answer(s, id, message)
    else s
  }

  /** Simon's leaving ends the game. */
  ghost function Quit(s: SimonState, id: UserId): SimonState
    requires id in s.room.members
  {
    s.(room := Leave(s.room, id, id == s.simon))
  }

  /** Option "simon": an active player becomes Simon. */
  ghost function Choose(s: SimonState, id: UserId): SimonState {
    if id in Active(s.room) then s.(simon := id) else s
  }

  datatype StartError = TooFewPlayers | SimonNotPlaying

  /** `start_game` of a room with this game loaded; the room starts the game before the controller can object. */
  ghost function Start(s: SimonState): (SimonState, Option<StartError>) {
    var room := StartGame(s.room);
    if PlayersIn(room.members) < 3 then (s.(room := room), Some(TooFewPlayers))
    else if s.simon !in Active(room) then
      (s.(room := room, simon := if room.owner.Some? then room.owner.value else s.simon), Some(SimonNotPlaying))
    else (s.(room := room, message := "", incomplete := {}), None)
  }

  // ----- Invariant ---------------------------------------------------------------------------------

  /** Simon plays, and those who still have to answer are other players. */
  ghost predicate PlayersPlay(s: SimonState) {
    s.simon in Active(s.room) && s.incomplete <= Active(s.room) - {s.simon}
  }

  ghost predicate Inv(s: SimonState) {
    RoomInv(s.room) && (s.room.gameStarted ==> PlayersPlay(s))
  }

  // ----- Ends of rounds ----------------------------------------------------------------------------

  lemma DisqualifyAllFacts(room: RoomState, ids: set<UserId>)
    requires RoomInv(room)
    ensures RoomInv(DisqualifyAll(room, ids)) && Active(DisqualifyAll(room, ids)) == Active(room) - ids
  {
    var room' := DisqualifyAll(room, ids);
    SameStatusCounts(room.members, room'.members);
    assert Active(room') == Active(room) - ids;
    hide PlayersIn, OwnerIsEarliest, DistinctTimes;
    SameTimesKeepOrder(room, room');
  }

  lemma OneByOne(room: RoomState, ids: set<UserId>, id: UserId)
    requires id in room.members
    ensures Disqualify(DisqualifyAll(room, ids), id) == DisqualifyAll(room, ids + {id})
  {
  }

  lemma NobodyDisqualified(room: RoomState)
    ensures DisqualifyAll(room, {}) == room
  {
  }

  lemma DisqualifyOne(room: RoomState, id: UserId)
    requires RoomInv(room) && id in Active(room)
    ensures RoomInv(Disqualify(room, id)) && Active(Disqualify(room, id)) == Active(room) - {id}
  {
    NobodyDisqualified(room);
    OneByOne(room, {}, id);
    DisqualifyAllFacts(room, {id});
    assert {} + {id} == {id};
  }

  lemma OnlyOneLeft(active: set<UserId>, simon: UserId)
    requires simon in active
    ensures |active| == 1 <==> active == {simon}
  {
    if |active| == 1 {
      assert |active - {simon}| == 0;
      assert active == {simon};
    }
  }

  lemma CheckWinFacts(room: RoomState, simon: UserId)
    requires RoomInv(room) && room.gameStarted && simon in Active(room)
    ensures RoomInv(CheckWin(room))
    ensures CheckWin(room).gameStarted <==> Active(room) != {simon}
    ensures CheckWin(room).gameStarted ==> CheckWin(room) == room
  {
    EndGameKeepsInv(room);
    OnlyOneLeft(Active(room), simon);
  }

  /**
   A round ends for good exactly when nobody but Simon has answered; otherwise the game goes on with
   exactly those who have.
   */
  lemma RoundLosesIncomplete(s: SimonState)
    requires Inv(s) && s.room.gameStarted
    ensures RoomInv(EndRound(s).room)
    ensures EndRound(s).room.gameStarted <==> Active(s.room) - s.incomplete != {s.simon}
    ensures EndRound(s).room.gameStarted ==> Active(EndRound(s).room) == Active(s.room) - s.incomplete
  {
    DisqualifyAllFacts(s.room, s.incomplete);
    CheckWinFacts(DisqualifyAll(s.room, s.incomplete), s.simon);
  }

  /** With two left the winner is congratulated, but nothing ends: they stay in the game with Simon. */
  lemma WinnerKeepsPlaying(s: SimonState)
    requires Inv(s) && s.room.gameStarted && |Active(s.room) - s.incomplete| == 2
    ensures EndRound(s).room.gameStarted && |Active(EndRound(s).room)| == 2
  {
    RoundLosesIncomplete(s);
  }

  /** Active are the players who are not disqualified. */
  lemma ActiveArePlaying(room: RoomState)
    ensures Active(room) == Playing(room.members)
  {
  }

  /** What the end of a round does to members: those who failed are disqualified, or the game is over and nobody is. */
  lemma RoundChanges(s: SimonState, id: UserId)
    requires Inv(s) && s.room.gameStarted && id in s.room.members
    ensures var s', m := EndRound(s), s.room.members[id];
            && s' == s.(room := s'.room) && s'.room.members.Keys == s.room.members.Keys
            && s'.room.members[id] ==
                 if !s'.room.gameStarted then m.(disqualified := false)
                 else if id in s.incomplete then m.(disqualified := true)
                 else m
  {
    RoundLosesIncomplete(s);
  }

  /** Nothing comes of what is said outside a game, by somebody who does not play, or by a player who has answered. */
  lemma IdleTalk(s: SimonState, id: UserId, message: string)
    requires !s.room.gameStarted || id !in Playing(s.room.members) || (id != s.simon && id !in s.incomplete)
    ensures Say(s, id, message) == s
  {
    ActiveArePlaying(s.room);
  }

  /** A quit ends the game exactly if it is Simon's. */
  lemma QuitEndsGame(s: SimonState, id: UserId)
    requires Inv(s) && id in s.room.members
    ensures Quit(s, id).room.gameStarted <==> s.room.gameStarted && id != s.simon
  {
  }

  // ----- Each operation keeps the invariant --------------------------------------------------------

  lemma SayKeepsInv(s: SimonState, id: UserId, message: string)
    requires Inv(s)
    ensures Inv(Say(s, id, message))
  {
    if s.room.gameStarted && id in Active(s.room) {
      hide RoomInv, CheckWin, Disqualify, DisqualifyAll;
      if id == s.simon {
        RoundLosesIncomplete(s);
      } else if id in s.incomplete {
        DisqualifyOne(s.room, id);
        CheckWinFacts(Disqualify(s.room, id), s.simon);
      }
    }
  }

  /** A leave is harmless unless it is that of a player who still has to answer. */
  lemma QuitKeepsInvIff(s: SimonState, id: UserId)
    requires Inv(s) && id in s.room.members
    ensures Inv(Quit(s, id)) <==> !(s.room.gameStarted && id in s.incomplete)
  {
    LeaveKeepsInv(s.room, id, id == s.simon);
    if s.room.gameStarted && id != s.simon {
      assert Quit(s, id).room.members == s.room.members - {id};
      assert Active(Quit(s, id).room) == Active(s.room) - {id};
    }
  }

  /** Choosing a new Simon during a game is harmless unless it is a player who still has to answer. */
  lemma ChooseKeepsInvIff(s: SimonState, id: UserId)
    requires Inv(s)
    ensures Inv(Choose(s, id)) <==> !(s.room.gameStarted && id in s.incomplete)
  {
  }

  /** Whom a lower player limit turns into waitlisted players. */
  ghost function Demoted(room: RoomState, limit: nat): set<UserId> {
    FirstToJoin(room.members, Active(room), Overflow(room, limit))
  }

  /** A lower player limit during a game is harmless unless it hits Simon or a player who still has to answer. */
  lemma LimitKeepsSimonIff(s: SimonState, limit: nat)
    requires Inv(s)
    ensures Inv(s.(room := LimitPlayers(s.room, limit))) <==>
              !s.room.gameStarted || Demoted(s.room, limit) !! s.incomplete + {s.simon}
  {
    var room' := LimitPlayers(s.room, limit);
    var first := FirstToJoin(s.room.members, Active(s.room), Overflow(s.room, limit));
    LimitKeepsInv(s.room, limit);
    hide RoomInv, FirstToJoin, Overflow, DisqualifiedIds;
    WaitlistedStopPlaying(s.room.members, first);
  }

  lemma WaitlistedStopPlaying(ms: MemberMap, ids: set<UserId>)
    ensures IdsOf(SetStatus(ms, ids, Waitlist), ActivePlayers) == IdsOf(ms, ActivePlayers) - ids
  {
  }

  lemma JoinKeepsPlayers(s: SimonState, id: UserId, how: JoinMethod)
    requires Inv(s) && id !in s.room.members
    ensures Inv(s.(room := Join(s.room, id, how)))
  {
    JoinKeepsInv(s.room, id, how);
  }

  /** A start that succeeds begins a game with the invariant; one that fails has marked the game as started anyway. */
  lemma StartFacts(s: SimonState)
    requires RoomInv(s.room) && s.room.gameLoaded
    ensures var (s', error) := Start(s);
            && RoomInv(s'.room) && s'.room.gameStarted
            && (error.None? ==> Inv(s') && PlayersIn(s'.room.members) >= 3)
  {
    StartGameKeepsInv(s.room);
  }

  lemma PlayersStart(room: RoomState)
    requires RoomInv(room) && room.gameLoaded
    ensures Active(StartGame(room)) == Having(room.members, Player)
    ensures PlayersIn(StartGame(room).members) == |Having(room.members, Player)|
    ensures |Having(room.members, Player)| > 0 ==> room.owner.Some?
  {
    StartGameKeepsInv(room);
    assert Active(StartGame(room)) == Having(room.members, Player);
    CountsByStatus(StartGame(room).members);
    assert Having(StartGame(room).members, Player) == Having(room.members, Player);
    assert room.members == map[] ==> Having(room.members, Player) == {};
  }

  /**
   A start succeeds exactly if there are three players and Simon is one of them; then nobody has an answer to
   give.  If Simon is none the part goes to the owner.  Either way every player plays.
   */
  lemma StartOutcome(s: SimonState)
    requires RoomInv(s.room) && s.room.gameLoaded
    ensures var (s', error) := Start(s);
            var players := Having(s.room.members, Player);
            && (error == None <==> |players| >= 3 && s.simon in players)
            && (error == Some(TooFewPlayers) <==> |players| < 3)
            && (error == None ==> s'.simon == s.simon && s'.incomplete == {} && s'.message == "")
            && (error != None ==> s'.incomplete == s.incomplete && s'.message == s.message)
            && (error == Some(TooFewPlayers) ==> s'.simon == s.simon)
            && (error == Some(SimonNotPlaying) ==> s.room.owner == Some(s'.simon))
            && s'.room.gameStarted && Active(s'.room) == players
  {
    PlayersStart(s.room);
    hide RoomInv, Having, Active, PlayersIn;
  }

  /**
   Who would be Simon after a start that fails has player status, and so has everybody else the last game
   left with an answer to give.
   */
  ghost predicate LeftoversPlay(s: SimonState)
  {
    var players := Having(s.room.members, Player);
    var simon := if |players| >= 3 && s.room.owner.Some? then s.room.owner.value else s.simon;
    simon in players && s.incomplete <= players - {simon}
  }

  /** A start is harmless exactly if it succeeds or that is so. */
  lemma StartKeepsInvIff(s: SimonState)
    requires RoomInv(s.room) && s.room.gameLoaded
    ensures Inv(Start(s).0) <==> Start(s).1.None? || LeftoversPlay(s)
  {
    StartFacts(s);
    StartOutcome(s);
  }

  /** The leave of a player who still has to answer leaves the game looking for somebody who is gone. */
  lemma UnansweredQuit() returns (s: SimonState, id: UserId)
    ensures Inv(s) && s.room.gameStarted && id in s.room.members
    ensures Quit(s, id).room.gameStarted && id in Quit(s, id).incomplete && id !in Active(Quit(s, id).room)
  {
    s := ThreePlaying();
    id := UserId("b");
    QuitKeepsInvIff(s, id);
  }

  /** A player who has to answer and becomes Simon is disqualified by the end of the round. */
  lemma UnansweredSimon() returns (s: SimonState, id: UserId)
    ensures Inv(s) && s.room.gameStarted && id in Active(s.room)
    ensures id in Choose(s, id).incomplete && id !in Active(DisqualifyAll(s.room, Choose(s, id).incomplete))
  {
    s := ThreePlaying();
    id := UserId("b");
    DisqualifyAllFacts(s.room, s.incomplete);
  }

  /** Three players; everybody but Simon has to answer. */
  lemma ThreePlaying() returns (s: SimonState)
    ensures Inv(s) && s.room.gameStarted && s.incomplete == {UserId("b"), UserId("c")}
    ensures UserId("b") in Active(s.room)
  {
    var a, b, c := UserId("a"), UserId("b"), UserId("c");
    var members := map[a := Member(0, Player, false), b := Member(1, Player, false), c := Member(2, Player, false)];
    s := SimonState(RoomState(members, Some(a), 8, 12, true, true, 3), a, "hello", {b, c});
    assert a.value[0] != b.value[0] && b.value[0] != c.value[0] && a.value[0] != c.value[0];
    assert IdsOf(members, ActivePlayers) == {a, b, c} && DisqualifiedIds(members) == {};
  }

  // ----- Every run of a game -----------------------------------------------------------------------

  datatype Event =
    | Said(id: UserId, text: string)
    | Joined(id: UserId, how: JoinMethod)
    | Quitted(id: UserId)
    | Chosen(id: UserId)
    | Limited(limit: nat)
    | Flushed
    | Ended
    | Started

  /**
   Nobody who still has to answer quits, becomes Simon or loses their place, Simon does not lose theirs, and
   a start succeeds or finds a part for everybody left over from the last game.
   */
  ghost predicate Happens(s: SimonState, e: Event) {
    match e
    case Joined(id, _) => id !in s.room.members
    case Quitted(id) => id in s.room.members && !(s.room.gameStarted && id in s.incomplete)
    case Chosen(id) => !(s.room.gameStarted && id in s.incomplete)
    case Limited(limit) =>
      && limit >= 1 && |DisqualifiedIds(s.room.members)| <= limit
      && (!s.room.gameStarted || Demoted(s.room, limit) !! s.incomplete + {s.simon})
    case Started => s.room.gameLoaded && (Start(s).1.None? || LeftoversPlay(s))
    case _ => true
  }

  ghost function Next(s: SimonState, e: Event): SimonState
    requires Happens(s, e)
  {
    match e
    case Said(id, text) => Say(s, id, text)
    case Joined(id, how) => s.(room := Join(s.room, id, how))
    case Quitted(id) => Quit(s, id)
    case Chosen(id) => Choose(s, id)
    case Limited(limit) => s.(room := LimitPlayers(s.room, limit))
    case Flushed => s.(room := Flush(s.room))
    case Ended => s.(room := EndGame(s.room))
    case Started => Start(s).0
  }

  ghost predicate IsGame(s: SimonState, events: seq<Event>)
    decreases |events|
  {
    events == [] || (Happens(s, events[0]) && IsGame(Next(s, events[0]), events[1..]))
  }

  ghost function Played(s: SimonState, events: seq<Event>): SimonState
    requires IsGame(s, events)
    decreases |events|
  {
    if events == [] then s else Played(Next(s, events[0]), events[1..])
  }

  lemma NextKeepsInv(s: SimonState, e: Event)
    requires Inv(s) && Happens(s, e)
    ensures Inv(Next(s, e))
  {
    hide Say, Quit, Choose, Start, Join, EndGame;
    match e
    case Said(id, text) => SayKeepsInv(s, id, text);
    case Joined(id, how) => JoinKeepsPlayers(s, id, how);
    case Quitted(id) => QuitKeepsInvIff(s, id);
    case Chosen(id) => ChooseKeepsInvIff(s, id);
    case Limited(limit) => LimitKeepsSimonIff(s, limit);
    case Flushed => FlushKeepsInv(s.room);
    case Ended => EndedKeepsInv(s);
    case Started => StartKeepsInvIff(s);
  }

  lemma EndedKeepsInv(s: SimonState)
    requires Inv(s)
    ensures Inv(s.(room := EndGame(s.room)))
  {
    EndGameKeepsInv(s.room);
  }

  /** After a successful start Simon plays and whoever has to answer does, at every point of every game. */
  lemma {:induction false} GameKeepsInv(s: SimonState, events: seq<Event>)
    requires Inv(s) && IsGame(s, events)
    ensures Inv(Played(s, events))
    decreases |events|
  {
    if events != [] {
      NextKeepsInv(s, events[0]);
      GameKeepsInv(Next(s, events[0]), events[1..]);
    }
  }

  // ----- A whole round -----------------------------------------------------------------------------

  /** A message and its sender. */
  datatype Utterance = Utterance(id: UserId, text: string)

  /** The state after everything that was said. */
  ghost function Heard(s: SimonState, said: seq<Utterance>): SimonState {
    if said == [] then s
    else
      var last := said[|said| - 1];
      Say(Heard(s, said[..|said| - 1]), last.id, last.text)
  }

  /** What a player said first, if anything. */
  ghost function FirstAnswer(said: seq<Utterance>, id: UserId): Option<string> {
    if said == [] then None
    else
      var before, last := FirstAnswer(said[..|said| - 1], id), said[|said| - 1];
      if before.Some? then before else if last.id == id then Some(last.text) else None
  }

  ghost predicate RepeatsSimon(message: string, said: seq<Utterance>, id: UserId) {
    var answer := FirstAnswer(said, id);
    answer.Some? && Trim(answer.value) == message
  }

  /** At any point of a round: who has not spoken has to, and those who spoke wrongly are out. */
  ghost predicate RoundSoFar(s: SimonState, said: seq<Utterance>, s': SimonState) {
    s'.simon == s.simon && s'.message == s.message && forall id :: SoFar(s, said, s', id)
  }

  ghost predicate SoFar(s: SimonState, said: seq<Utterance>, s': SimonState, id: UserId) {
    && (id in s'.incomplete <==> id in s.incomplete && FirstAnswer(said, id).None?)
    && (id in Active(s'.room) <==>
          && id in Active(s.room)
          && (id in s.incomplete && FirstAnswer(said, id).Some? ==> RepeatsSimon(s.message, said, id)))
  }

  lemma {:induction false} RoundInvariant(s: SimonState, said: seq<Utterance>)
    requires Inv(s) && s.room.gameStarted && forall u :: u in said ==> u.id != s.simon
    ensures Inv(Heard(s, said))
    ensures Heard(s, said).room.gameStarted ==> RoundSoFar(s, said, Heard(s, said))
    decreases |said|
  {
    hide Inv, SoFar, Answer, SimonSays;
    if said == [] {
      assert forall id :: SoFar(s, said, s, id) by { NothingSaid(s); }
    } else {
      var before, last := said[..|said| - 1], said[|said| - 1];
      assert last in said;
      RoundInvariant(s, before);
      SayKeepsInv(Heard(s, before), last.id, last.text);
      if Heard(s, before).room.gameStarted && Heard(s, said).room.gameStarted {
        AnswerContinuesRound(s, before, last, Heard(s, before));
        assert before + [last] == said;
      }
    }
  }

  lemma NothingSaid(s: SimonState)
    ensures forall id :: SoFar(s, [], s, id)
  {
  }

  lemma AnswerContinuesRound(s: SimonState, said: seq<Utterance>, last: Utterance, s': SimonState)
    requires Inv(s') && s'.room.gameStarted && RoundSoFar(s, said, s') && last.id != s.simon
    requires Say(s', last.id, last.text).room.gameStarted
    ensures RoundSoFar(s, said + [last], Say(s', last.id, last.text))
  {
    hide RepeatsSimon, FirstAnswer, SoFar, Say, Inv;
    AnswerFacts(s', last);
    forall id
      ensures SoFar(s, said + [last], Say(s', last.id, last.text), id)
    {
      assert SoFar(s, said, s', id);
      SoFarNext(s, said, last, s', id);
    }
  }

  /** What an answer does, as long as the game goes on. */
  ghost predicate Answered(s: SimonState, u: Utterance, s': SimonState) {
    && s'.simon == s.simon && s'.message == s.message
    && s'.incomplete == s.incomplete - {u.id}
    && Active(s'.room) == Active(s.room) - (if u.id in s.incomplete && Trim(u.text) != s.message then {u.id} else {})
  }

  lemma AnswerFacts(s: SimonState, u: Utterance)
    requires Inv(s) && s.room.gameStarted && u.id != s.simon && Say(s, u.id, u.text).room.gameStarted
    ensures Answered(s, u, Say(s, u.id, u.text)) && s.incomplete <= Active(s.room)
  {
  }

  lemma SoFarNext(s: SimonState, said: seq<Utterance>, last: Utterance, s': SimonState, id: UserId)
    requires SoFar(s, said, s', id) && s'.message == s.message && s'.incomplete <= Active(s'.room)
    ensures forall s'' :: Answered(s', last, s'') ==> SoFar(s, said + [last], s'', id)
  {
  }

  ghost predicate SpokeWrongly(message: string, said: seq<Utterance>, id: UserId) {
    FirstAnswer(said, id).Some? && !RepeatsSimon(message, said, id)
  }

  /** A game that ends before Simon speaks again has heard a wrong answer from everybody. */
  lemma {:induction false} OverOnceAllFailed(s: SimonState, said: seq<Utterance>)
    requires Inv(s) && s.room.gameStarted && s.incomplete == Active(s.room) - {s.simon}
    requires forall u :: u in said ==> u.id != s.simon
    ensures !Heard(s, said).room.gameStarted ==> forall id :: id in s.incomplete ==> SpokeWrongly(s.message, said, id)
    decreases |said|
  {
    if said != [] && !Heard(s, said).room.gameStarted {
      hide Inv, SoFar, Say, SpokeWrongly;
      var before, last := said[..|said| - 1], said[|said| - 1];
      assert before + [last] == said && last in said;
      OverOnceAllFailed(s, before);
      RoundInvariant(s, before);
      forall id | id in s.incomplete
        ensures SpokeWrongly(s.message, said, id)
      {
        if Heard(s, before).room.gameStarted {
          LastAnswerFailed(Heard(s, before), last);
          assert SoFar(s, before, Heard(s, before), id);
          FailedNow(s, before, last, Heard(s, before), id);
        } else {
          StillFailed(s.message, before, last, id);
        }
      }
    }
  }

  lemma LastAnswerFailed(s: SimonState, u: Utterance)
    requires Inv(s) && s.room.gameStarted && u.id != s.simon && !Say(s, u.id, u.text).room.gameStarted
    ensures u.id in s.incomplete && Trim(u.text) != s.message && Active(s.room) == {s.simon, u.id}
  {
    hide RoomInv, CheckWin;
    if u.id in s.incomplete {
      DisqualifyOne(s.room, u.id);
      CheckWinFacts(Disqualify(s.room, u.id), s.simon);
    }
  }

  lemma FailedNow(s: SimonState, said: seq<Utterance>, last: Utterance, s': SimonState, id: UserId)
    requires SoFar(s, said, s', id) && s'.message == s.message
    requires id in s.incomplete && s.incomplete <= Active(s.room) - {s.simon}
    requires last.id in s'.incomplete && Trim(last.text) != s.message && Active(s'.room) == {s.simon, last.id}
    ensures SpokeWrongly(s.message, said + [last], id)
  {
  }

  lemma StillFailed(message: string, said: seq<Utterance>, last: Utterance, id: UserId)
    requires SpokeWrongly(message, said, id)
    ensures SpokeWrongly(message, said + [last], id)
  {
  }

  lemma Survives(s: SimonState, said: seq<Utterance>, s': SimonState, id: UserId)
    requires SoFar(s, said, s', id) && s.simon in Active(s.room) && s.incomplete == Active(s.room) - {s.simon}
    ensures id in Active(s'.room) - s'.incomplete <==>
              id == s.simon || (id in Active(s.room) && RepeatsSimon(s.message, said, id))
  {
  }

  lemma SomebodyElse(left: set<UserId>, simon: UserId)
    requires simon in left
    ensures left != {simon} <==> exists id :: id in left && id != simon
  {
  }

  /** Whoever remains once Simon speaks again, from the point where Simon has asked everybody. */
  lemma RoundResult(s: SimonState, said: seq<Utterance>, message: string)
    requires Inv(s) && s.room.gameStarted && s.incomplete == Active(s.room) - {s.simon}
    requires forall u :: u in said ==> u.id != s.simon
    ensures var ended := Say(Heard(s, said), s.simon, message);
            && (ended.room.gameStarted <==>
                  exists id :: id in Active(s.room) && id != s.simon && RepeatsSimon(s.message, said, id))
            && (ended.room.gameStarted ==>
                  && ended.incomplete == Active(ended.room) - {s.simon}
                  && forall id :: id in Active(ended.room) <==>
                       id == s.simon || (id in Active(s.room) && RepeatsSimon(s.message, said, id)))
  {
    hide RoomInv, CheckWin, DisqualifyAll, Answer, RepeatsSimon, FirstAnswer, SoFar, Heard, IdsOf;
    var heard := Heard(s, said);
    RoundInvariant(s, said);
    OverOnceAllFailed(s, said);
    if heard.room.gameStarted {
      RoundLosesIncomplete(heard);
      var left := Active(heard.room) - heard.incomplete;
      forall id
        ensures id in left <==> id == s.simon || (id in Active(s.room) && RepeatsSimon(s.message, said, id))
      {
        assert SoFar(s, said, heard, id);
        Survives(s, said, heard, id);
      }
      SomebodyElse(left, s.simon);
    } else {
      forall id | id in Active(s.room) && id != s.simon
        ensures !RepeatsSimon(s.message, said, id)
      {
        assert id in s.incomplete;
      }
    }
  }

  /** The first thing the player said was what Simon had, but for spaces around it. */
  ghost predicate Repeats(message: string, said: seq<Utterance>, id: UserId) {
    var answer := FirstAnswer(said, id);
    answer.Some? && SameUpToSpaces(answer.value, message)
  }

  lemma RepeatsIff(message: string, said: seq<Utterance>)
    ensures forall id :: Repeats(message, said, id) <==> RepeatsSimon(Trim(message), said, id)
  {
    forall id
      ensures Repeats(message, said, id) <==> RepeatsSimon(Trim(message), said, id)
    {
      var answer := FirstAnswer(said, id);
      if answer.Some? {
        SameUpToSpacesIff(answer.value, message);
      }
    }
  }

  /**
   From one thing Simon says to the next: the game is still running exactly if somebody's first answer was
   what Simon had said, up to spaces around it; then those left are Simon and whoever answered so, and they
   are asked next.
   */
  lemma RoundSurvivors(s: SimonState, message: string, said: seq<Utterance>, message': string)
    requires Inv(s) && s.room.gameStarted && forall u :: u in said ==> u.id != s.simon
    requires SimonSays(s, message).room.gameStarted
    ensures var asked := SimonSays(s, message);
            var ended := Say(Heard(asked, said), s.simon, message');
            && (ended.room.gameStarted <==>
                  exists id :: id in Active(asked.room) && id != s.simon && Repeats(message, said, id))
            && (ended.room.gameStarted ==>
                  && ended.incomplete == Active(ended.room) - {s.simon}
                  && forall id :: id in Active(ended.room) <==>
                       id == s.simon || (id in Active(asked.room) && Repeats(message, said, id)))
  {
    hide Inv, CheckWin, DisqualifyAll, RepeatsSimon, Repeats, Heard, IdsOf;
    RepeatsIff(message, said);
    SayKeepsInv(s, s.simon, message);
    SimonPlays(s);
    RoundResult(SimonSays(s, message), said, message');
  }

  lemma SimonPlays(s: SimonState)
    requires Inv(s) && s.room.gameStarted
    ensures s.simon in Active(s.room)
  {
  }
}
