/**
 The controller of the game of Simon: module/server_daemon/include/EXAMPLE_Simon.hpp and
 module/server_daemon/src/EXAMPLE_Simon.cpp:24-63, 86-112, 126-185, with the dispatch of messages in
 module/chat/src/Room.cpp:481-497 and of quits in module/chat/src/Room.cpp:167-201.

 Wherever the program follows a pointer that a search in the room has returned, the model takes the
 value out of an option: that there is one is part of what is verified.
 */
module Simons {
  import opened FiniteSets
  import opened Members
  import opened OrderedCaches
  import opened RoomRules
  import opened Rooms
  import opened SimonRules
  import opened Wrappers

  class EXAMPLE_Simon {
    const room: Room
    var simon: UserId
    var simonMessage: string
    var incomplete: set<UserId>

    ghost function State(): SimonState
      reads this, room
    {
      SimonState(room.State(), simon, simonMessage, incomplete)
    }

    ghost predicate Valid()
      reads this, room
    {
      room.Valid() && Inv(State())
    }

    constructor (room: Room, simon: UserId)
      ensures this.room == room && this.simon == simon && incomplete == {} && simonMessage == ""
    {
      this.room, this.simon, simonMessage, incomplete := room, simon, "", {};
    }

    /** Follows the pointer to Simon. */
    method SimonPtr() returns (player: MemberPtr)
      requires room.Valid() && simon in Active(room.State())
      ensures player.id == simon
    {
      var found := room.FindPlayer(simon);
      player := found.value;
    }

    /** Ends the game once only one player is left, and names the winner while there are two. */
    method CheckWin() returns (winner: Option<UserId>)
      requires room.Valid() && simon in Active(room.State())
      modifies room
      ensures room.Valid() && room.State() == SimonRules.CheckWin(old(room.State()))
      ensures |Active(old(room.State()))| == 2 ==>
                winner.Some? && winner.value != simon && Active(room.State()) == {simon, winner.value}
      ensures |Active(old(room.State()))| != 2 ==> winner.None?
    {
      EndGameKeepsInv(room.State());
      hide Agree, MembersInv, OwnerIsEarliest;
      winner := None;
      var active := room.ActivePlayerCount();
      if active == 1 {
        var name := SimonPtr();
        room.EndGame();
      } else if active == 2 {
        var found := FindOther();
        winner := Some(found.id);
        TwoLeft(Active(room.State()), simon, found.id);
      }
    }

    /** The first player who is not Simon. */
    method FindOther() returns (player: MemberPtr)
      requires room.Valid() && |Active(room.State())| > 1
      ensures player.id in Active(room.State()) && player.id != simon
    {
      ghost var ms := room.members;
      assert IsCacheOf(room.cachedPlayers, ms, ActivePlayers);
      hide Agree, MembersInv, OwnerIsEarliest, IdsOf;
      PlayersAreListed(room.cachedPlayers, ms);
      var k := 0;
      while room.cachedPlayers[k].id == simon
        invariant 0 <= k < |room.cachedPlayers|
        invariant forall i :: 0 <= i < k ==> room.cachedPlayers[i].id == simon
        decreases |room.cachedPlayers| - k
      {
        SimonIsListedOnce(room.cachedPlayers, ms, k);
        k := k + 1;
      }
      player := room.cachedPlayers[k];
    }

    /** Everybody who did not complete the round is disqualified. */
    method EndRound() returns (winner: Option<UserId>)
      requires Valid() && room.gameStarted
      modifies room
      ensures room.Valid() && State() == SimonRules.EndRound(old(State()))
    {
      ghost var s := State();
      hide MembersInv, OwnerIsEarliest, Agree, SimonRules.CheckWin, Failed, IdsOf, RoomInv;
      NobodyFailedYet(s);
      var rest := incomplete;
      while rest != {}
        invariant rest <= incomplete && room.Valid()
        invariant room.State() == Failed(s, rest)
      {
        var fail :| fail in rest;
        FailNext(s, rest, fail);
        var player := room.FindPlayer(fail);
        room.DisqualifyPlayer(player.value.id);
        rest := rest - {fail};
      }
      AllFailed(s);
      winner := CheckWin();
    }

    method NextRound(message: string)
      requires room.Valid() && simon in Active(room.State())
      modifies this
      ensures State() == SimonRules.NextRound(old(State()), message)
    {
      assert IsCacheOf(room.cachedPlayers, room.members, ActivePlayers);
      hide Agree, MembersInv, OwnerIsEarliest;
      simonMessage := message;
      incomplete := {};
      for k := 0 to |room.cachedPlayers|
        invariant incomplete == IdSet(room.cachedPlayers[..k]) - {simon}
        modifies this`incomplete
      {
        IdSetNext(room.cachedPlayers, k);
        if room.cachedPlayers[k].id != simon {
          incomplete := incomplete + {room.cachedPlayers[k].id};
        }
      }
      CacheNames(room.cachedPlayers, room.members);
      var name := SimonPtr();
    }

    /** A message in a room during a game; only those of active players reach this controller. */
    method ProcessMessage(id: UserId, message: string)
      requires Valid()
      modifies this, room
      ensures Valid() && State() == Say(old(State()), id, message)
    {
      SayKeepsInv(State(), id, message);
      if id !in room.members || !room.gameStarted || !room.members[id].IsPlayer() || room.members[id].IsDisqualified() {
        return;
      }
      InterceptPlayerMessage(id, message);
    }

    method InterceptPlayerMessage(id: UserId, message: string)
      requires Valid() && room.gameStarted && id in Active(room.State())
      modifies this, room
      ensures room.Valid() && State() == Say(old(State()), id, message)
    {
      ghost var s := State();
      hide MembersInv, OwnerIsEarliest, Agree, SimonRules.CheckWin, DisqualifyAll, Disqualify;
      if id == simon {
        RoundLosesIncomplete(s);
        var _ := EndRound();
        if room.gameStarted {
          NextRound(Trim(message));
        }
      } else if id in incomplete {
        if Trim(message) != simonMessage {
          DisqualifyOne(room.State(), id);
          var player := room.FindPlayer(id);
          room.DisqualifyPlayer(player.value.id);
          var _ := CheckWin();
        }
        incomplete := incomplete - {id};
      }
    }

    /** Whether a quit makes this controller end the game of the room. */
    predicate OnPlayerQuit(id: UserId)
      reads this
    {
      id == simon
    }

    /** A member leaves a room with this controller loaded. */
    method RemoveUser(id: UserId)
      requires room.Valid() && id in room.members
      modifies room
      ensures room.Valid() && State() == Quit(old(State()), id)
    {
      room.RemoveUser(id, OnPlayerQuit(id));
    }

    /** Option "simon" makes a player Simon; any other is accepted without effect. */
    method OnOptionChange(option: string, id: UserId) returns (ok: bool)
      requires room.Valid()
      modifies this
      ensures State() == if option == "simon" then Choose(old(State()), id) else old(State())
      ensures ok <==> option != "simon" || id in Active(room.State())
    {
      if option == "simon" {
        var found := room.FindPlayer(id);
        if found.None? {
          return false;
        }
        simon := found.value.id;
      }
      return true;
    }

    /** `start_game` of the room, up to and including `start` of this controller. */
    method Start() returns (error: Option<StartError>)
      requires room.Valid() && room.gameLoaded
      modifies this, room
      ensures room.Valid() && (State(), error) == SimonRules.Start(old(State()))
      ensures error.None? ==> Valid()
    {
      StartFacts(State());
      hide MembersInv, Agree;
      var _ := room.StartGame();
      var players := room.PlayerCount();
      if players < 3 {
        return Some(TooFewPlayers);
      }
      var found := room.FindPlayer(simon);
      if found.None? {
        PlayersAreMembers(room.State());
        simon := room.owner.value;
        return Some(SimonNotPlaying);
      }
      incomplete := {};
      simonMessage := "";
      var name := SimonPtr();
      return None;
    }
  }

  /** The room in the middle of the end of a round: the rest have not been disqualified yet. */
  ghost function Failed(s: SimonState, rest: set<UserId>): RoomState {
    DisqualifyAll(s.room, s.incomplete - rest)
  }

  lemma NobodyFailedYet(s: SimonState)
    ensures Failed(s, s.incomplete) == s.room
  {
  }

  /** The player to fail next is still found. */
  lemma FailNext(s: SimonState, rest: set<UserId>, id: UserId)
    requires Inv(s) && s.room.gameStarted && id in rest && rest <= s.incomplete
    ensures id in Active(Failed(s, rest)) && id in Failed(s, rest).members
    ensures Disqualify(Failed(s, rest), id) == Failed(s, rest - {id})
  {
    DisqualifyAllFacts(s.room, s.incomplete - rest);
    OneByOne(s.room, s.incomplete - rest, id);
    assert s.incomplete - (rest - {id}) == s.incomplete - rest + {id};
  }

  lemma AllFailed(s: SimonState)
    requires Inv(s) && s.room.gameStarted
    ensures Failed(s, {}) == DisqualifyAll(s.room, s.incomplete) && s.simon in Active(Failed(s, {}))
  {
  }

  lemma PlayersAreMembers(s: RoomState)
    requires PlayersIn(s.members) > 0 && OwnerIsEarliest(s)
    ensures s.owner.Some?
  {
  }

  lemma TwoLeft(active: set<UserId>, one: UserId, other: UserId)
    requires |active| == 2 && one in active && other in active && one != other
    ensures active == {one, other}
  {
    SubsetSize({one, other}, active);
  }

  lemma CacheNames(s: Cache, ms: MemberMap)
    requires IsCacheOf(s, ms, ActivePlayers)
    ensures IdSet(s[..|s|]) == IdsOf(ms, ActivePlayers) && |s| == |IdsOf(ms, ActivePlayers)|
  {
    CacheIsList(s, ms, ActivePlayers);
    ListSize(s, ms, IdsOf(ms, ActivePlayers));
    assert s[..|s|] == s;
  }

  lemma PlayersAreListed(s: Cache, ms: MemberMap)
    requires IsCacheOf(s, ms, ActivePlayers)
    ensures |s| == |IdsOf(ms, ActivePlayers)|
    ensures forall k :: 0 <= k < |s| ==> s[k].id in IdsOf(ms, ActivePlayers)
  {
    CacheNames(s, ms);
    forall k | 0 <= k < |s|
      ensures s[k].id in IdsOf(ms, ActivePlayers)
    {
      assert s[k] in s;
    }
  }

  /** No id is listed twice, so the search for another player stops in time. */
  lemma SimonIsListedOnce(s: Cache, ms: MemberMap, k: nat)
    requires IsCacheOf(s, ms, ActivePlayers) && k < |s| && |s| > 1
    requires forall i :: 0 <= i <= k ==> s[i].id == s[k].id
    ensures k == 0
  {
    assert s[0] in s && s[k] in s;
  }
}
