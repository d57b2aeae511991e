/**
 The chat room: module/chat/include/Room.hpp:108-126, 461-471 and module/chat/src/Room.cpp:13-27,
 72-104, 143-317, 509-536, 560-579.

 Users are identified by their ids; the clock that stamps joins stands for the system clock, taken
 to advance between joins.  The answer of the controller to a player's leaving is a parameter.
 */
module Rooms {
  import opened Wrappers
  import opened Members
  import opened OrderedCaches
  import opened RoomRules

  // ----- From the caches to the rules --------------------------------------------------------------

  lemma CountsFromCaches(c: Caches, ms: MemberMap)
    requires Agree(c, ms)
    ensures |c.players| + c.disqualified == PlayersIn(ms)
    ensures |c.spectators| - c.disqualified == SpectatorsIn(ms)
    ensures |c.users| == |ms|
  {
    CacheSize(c.players, ms, ActivePlayers);
    CacheSize(c.spectators, ms, Watchers);
    CacheSize(c.users, ms, Users);
    assert IdsOf(ms, Users) == ms.Keys;
  }

  lemma CacheSize(s: Cache, ms: MemberMap, kind: Kind)
    requires IsCacheOf(s, ms, kind)
    ensures |s| == |IdsOf(ms, kind)|
  {
    CacheIsList(s, ms, kind);
    ListSize(s, ms, IdsOf(ms, kind));
  }

  /** The first n of a group to join are the ids of the first n entries of its list. */
  lemma FirstToJoinIsPrefix(s: Cache, ms: MemberMap, group: set<UserId>, n: nat, k: int)
    requires IsListOf(s, ms, group) && n <= |s| && (k == n || (n == |s| && k >= n))
    ensures FirstToJoin(ms, group, k) == IdSet(s[..n])
  {
    forall id
      ensures id in FirstToJoin(ms, group, k) <==> id in IdSet(s[..n])
    {
      PrefixInGroup(s, ms, group, n, id);
      if id in group {
        var r :| 0 <= r < |s| && s[r] == PtrTo(id, ms[id]);
        RankInList(s, ms, group, r);
        if r < n {
          IdSetHas(s, n, r);
        } else {
          PrefixByTime(s, ms, group, n, id);
        }
      }
    }
  }

  lemma PrefixInGroup(s: Cache, ms: MemberMap, group: set<UserId>, n: nat, id: UserId)
    requires IsListOf(s, ms, group) && n <= |s|
    ensures id in IdSet(s[..n]) ==> id in group
  {
    if id in IdSet(s[..n]) {
      var r := IdSetIndex(s, n, id);
      assert IsEntry(ms, group, s[r]);
    }
  }

  lemma RankInList(s: Cache, ms: MemberMap, group: set<UserId>, r: nat)
    requires IsListOf(s, ms, group) && r < |s|
    ensures |JoinedBefore(ms, group, s[r].since)| == r
  {
    PrefixSize(s, ms, group, r);
    forall id
      ensures id in JoinedBefore(ms, group, s[r].since) <==> id in IdSet(s[..r])
    {
      PrefixByTime(s, ms, group, r, id);
    }
    assert JoinedBefore(ms, group, s[r].since) == IdSet(s[..r]);
  }

  /** Changing the status of the next entry of a list extends the change to a longer prefix. */
  lemma SetStatusNext(s: Cache, ms: MemberMap, group: set<UserId>, k: nat, status: Status)
    requires IsListOf(s, ms, group) && k < |s|
    ensures var before, id := SetStatus(ms, IdSet(s[..k]), status), s[k].id;
            && id in group && id in before && before[id] == ms[id]
            && SetStatus(ms, IdSet(s[..k + 1]), status) == before[id := ms[id].(status := status)]
  {
    assert IsEntry(ms, group, s[k]);
    PrefixByTime(s, ms, group, k, s[k].id);
    IdSetNext(s, k);
  }

  lemma FirstUserIsEarliest(s: Cache, ms: MemberMap)
    requires IsCacheOf(s, ms, Users)
    ensures s == [] <==> ms == map[]
    ensures s != [] ==> IsEarliest(ms, s[0].id) && Earliest(ms) == Some(s[0].id)
    ensures s == [] ==> Earliest(ms) == None
  {
    assert forall id :: id in ms ==> PtrTo(id, ms[id]) in s;
    if s != [] {
      assert s[0] in s;
      forall other | other in ms && other != s[0].id
        ensures ms[s[0].id].since < ms[other].since
      {
        assert PtrTo(other, ms[other]) in s;
      }
    }
  }

  // ----- Collecting and changing part of a list ----------------------------------------------------

  /** The waitlisted among the first k users. */
  ghost function WaitingAmong(ms: MemberMap, users: Cache, k: nat): set<UserId>
    requires k <= |users|
  {
    set id | id in IdSet(users[..k]) && id in ms && ms[id].IsWaitlisted()
  }

  lemma NobodyWaitingYet(ms: MemberMap, users: Cache)
    ensures IsListOf([], ms, WaitingAmong(ms, users, 0))
  {
  }

  lemma WaitingNext(list: Cache, ms: MemberMap, users: Cache, k: nat)
    requires IsCacheOf(users, ms, Users) && k < |users|
    requires IsListOf(list, ms, WaitingAmong(ms, users, k))
    ensures users[k].id in ms
    ensures var list' := if ms[users[k].id].IsWaitlisted() then list + [users[k]] else list;
            IsListOf(list', ms, WaitingAmong(ms, users, k + 1))
  {
    var p, all := users[k], IdsOf(ms, Users);
    CacheIsList(users, ms, Users);
    assert IsEntry(ms, all, p);
    IdSetNext(users, k);
    var group, group' := WaitingAmong(ms, users, k), WaitingAmong(ms, users, k + 1);
    forall i | 0 <= i < |list|
      ensures list[i].since < p.since && IsEntry(ms, group', list[i])
    {
      assert IsEntry(ms, group, list[i]);
      PrefixByTime(users, ms, all, k, list[i].id);
    }
    var list' := if ms[p.id].IsWaitlisted() then list + [p] else list;
    forall id | id in group'
      ensures PtrTo(id, ms[id]) in list'
    {
      if id in group {
        assert PtrTo(id, ms[id]) in list;
      } else {
        assert list'[|list|] == p;
      }
    }
  }

  lemma AllWaiting(list: Cache, ms: MemberMap, users: Cache)
    requires IsCacheOf(users, ms, Users) && IsListOf(list, ms, WaitingAmong(ms, users, |users|))
    ensures IsListOf(list, ms, WaitlistedIds(ms))
  {
    CacheIsList(users, ms, Users);
    ListSize(users, ms, IdsOf(ms, Users));
    assert users[..|users|] == users;
    assert WaitingAmong(ms, users, |users|) == WaitlistedIds(ms);
  }

  /** The flush does nothing in a game, or when there are no spectators to be waitlisted. */
  lemma NothingToFlush(s: RoomState)
    requires DisqualifiedPlay(s.members) && (s.gameStarted || SpectatorsIn(s.members) == 0)
    ensures Flush(s) == s
  {
    if !s.gameStarted {
      CountsByStatus(s.members);
      assert forall id :: id in s.members ==> id !in WithStatus(s.members, false);
      assert SetStatus(s.members, FirstToJoin(s.members, WaitlistedIds(s.members), Free(s)), Player) == s.members;
    }
  }

  /** How far the loops have changed statuses: those of the first k entries of a list. */
  ghost function Changed(s: RoomState, list: Cache, k: nat, status: Status): RoomState
    requires k <= |list|
  {
    s.(members := SetStatus(s.members, IdSet(list[..k]), status))
  }

  lemma NothingChangedYet(s: RoomState, list: Cache, status: Status)
    ensures Changed(s, list, 0, status) == s
  {
  }

  lemma ChangeNext(s: RoomState, list: Cache, group: set<UserId>, k: nat, status: Status)
    requires IsListOf(list, s.members, group) && k < |list|
    ensures var before, id := Changed(s, list, k, status), list[k].id;
            && id in before.members
            && Changed(s, list, k + 1, status) ==
                 before.(members := before.members[id := before.members[id].(status := status)])
  {
    SetStatusNext(list, s.members, group, k, status);
  }

  lemma PromotedSoFar(s: RoomState, list: Cache, k: nat)
    requires MembersInv(s) && IsListOf(list, s.members, WaitlistedIds(s.members)) && k <= |list|
    ensures PlayersIn(Changed(s, list, k, Player).members) == PlayersIn(s.members) + k
  {
    PrefixSize(list, s.members, WaitlistedIds(s.members), k);
    forall id | id in IdSet(list[..k])
      ensures id in s.members && s.members[id].IsWaitlisted()
    {
      PrefixInGroup(list, s.members, WaitlistedIds(s.members), k, id);
    }
    StatusChangeCounts(s.members, IdSet(list[..k]), Player);
  }

  lemma FlushIsPrefix(s: RoomState, list: Cache, k: nat)
    requires !s.gameStarted && IsListOf(list, s.members, WaitlistedIds(s.members)) && k <= |list|
    requires k == Free(s) || (k == |list| && k <= Free(s))
    ensures Changed(s, list, k, Player) == Flush(s)
  {
    FirstToJoinIsPrefix(list, s.members, WaitlistedIds(s.members), k, Free(s));
  }

  lemma NewTime(s: RoomState, id: UserId, status: Status)
    requires MembersInv(s) && id !in s.members
    ensures DistinctTimes(s.members[id := Member(s.clock, status, false)])
  {
  }

  // ----- The room ----------------------------------------------------------------------------------

  class Room {
    var owner: Option<UserId>
    var playerLimit: nat
    var spectatorLimit: nat
    var playersDisqualified: int
    var members: MemberMap
    var cachedUsers: Cache
    var cachedPlayers: Cache
    var cachedSpectators: Cache
    var cachedUsersAsSpectators: Cache
    var gameLoaded: bool
    var gameStarted: bool
    var clock: nat

    ghost function State(): RoomState
      reads this
    {
      RoomState(members, owner, playerLimit, spectatorLimit, gameLoaded, gameStarted, clock)
    }

    ghost function Cached(): Caches
      reads this
    {
      Caches(cachedUsers, cachedUsersAsSpectators, cachedPlayers, cachedSpectators, playersDisqualified)
    }

    /** The caches say what they should about the members. */
    ghost predicate Cohesive()
      reads this
    {
      Agree(Cached(), members) && MembersInv(State())
    }

    ghost predicate Valid()
      reads this
    {
      Cohesive() && OwnerIsEarliest(State())
    }

    constructor ()
      ensures Valid() && State() == INITIAL
    {
      owner, playerLimit, spectatorLimit, playersDisqualified := None, 8, 12, 0;
      members, cachedUsers, cachedPlayers, cachedSpectators, cachedUsersAsSpectators := map[], [], [], [], [];
      gameLoaded, gameStarted, clock := false, false, 0;
      new;
      assert DisqualifiedIds(members) == {} && IdsOf(members, ActivePlayers) == {};
    }

    // ----- Counts ----------------------------------------------------------------------------------

    method PlayerCount() returns (n: int)
      requires Agree(Cached(), members)
      ensures n == PlayersIn(members)
    {
      CountsFromCaches(Cached(), members);
      n := |cachedPlayers| + playersDisqualified;
    }

    method SpectatorCount() returns (n: int)
      requires Agree(Cached(), members)
      ensures n == SpectatorsIn(members) >= 0
    {
      CountsFromCaches(Cached(), members);
      n := |cachedSpectators| - playersDisqualified;
    }

    method ActivePlayerCount() returns (n: nat)
      requires Agree(Cached(), members)
      ensures n == |IdsOf(members, ActivePlayers)|
    {
      CacheSize(cachedPlayers, members, ActivePlayers);
      n := |cachedPlayers|;
    }

    /** The player with that id, or null. */
    method FindPlayer(id: UserId) returns (player: Option<MemberPtr>)
      requires Agree(Cached(), members)
      ensures player.Some? <==> id in IdsOf(members, ActivePlayers)
      ensures player.Some? ==> player.value == PtrTo(id, members[id])
    {
      hide DistinctTimes;
      assert forall p :: p in cachedPlayers <==>
                           p.id in IdsOf(members, ActivePlayers) && p == PtrTo(p.id, members[p.id]);
      for k := 0 to |cachedPlayers|
        invariant forall i :: 0 <= i < k ==> cachedPlayers[i].id != id
      {
        if cachedPlayers[k].id == id {
          assert cachedPlayers[k] in cachedPlayers;
          return Some(cachedPlayers[k]);
        }
      }
      assert id in IdsOf(members, ActivePlayers) ==> PtrTo(id, members[id]) in cachedPlayers;
      return None;
    }

    // ----- Caches and guards -----------------------------------------------------------------------

    /** Takes one of the members the caches agree with out of them. */
    method CachedRemove(id: UserId, member: Member, ghost ms: MemberMap)
      requires Agree(Cached(), ms) && id in ms && ms[id] == member
      modifies this`cachedUsers, this`cachedUsersAsSpectators, this`cachedPlayers, this`cachedSpectators,
               this`playersDisqualified
      ensures Agree(Cached(), ms - {id}) && Cached() == Removed(old(Cached()), id, member)
    {
      hide Agree, Insert, Erase;
      RemovedAgrees(Cached(), ms, id);
      var p := PtrTo(id, member);
      cachedUsers := Erase(cachedUsers, p);
      cachedUsersAsSpectators := Erase(cachedUsersAsSpectators, p);
      if member.IsDisqualified() {
        playersDisqualified := playersDisqualified - 1;
      }
      if member.IsSpectator() || member.IsDisqualified() {
        cachedSpectators := Erase(cachedSpectators, p);
      }
      if member.IsPlayer() && !member.IsDisqualified() {
        cachedPlayers := Erase(cachedPlayers, p);
      }
    }

    /** Puts a member into the caches besides those they agree with. */
    method CachedAdd(id: UserId, member: Member, ghost ms: MemberMap)
      requires Agree(Cached(), ms) && id !in ms && DistinctTimes(ms[id := member])
      modifies this`cachedUsers, this`cachedUsersAsSpectators, this`cachedPlayers, this`cachedSpectators,
               this`playersDisqualified
      ensures Agree(Cached(), ms[id := member]) && Cached() == Added(old(Cached()), id, member)
    {
      hide Agree, Insert, Erase, DistinctTimes;
      AddedAgrees(Cached(), ms, id, member);
      var p := PtrTo(id, member);
      cachedUsers := Insert(cachedUsers, p);
      cachedUsersAsSpectators := Insert(cachedUsersAsSpectators, p);
      if member.IsDisqualified() {
        playersDisqualified := playersDisqualified + 1;
      }
      if member.IsSpectator() || member.IsDisqualified() {
        cachedSpectators := Insert(cachedSpectators, p);
      }
      if member.IsPlayer() && !member.IsDisqualified() {
        cachedPlayers := Insert(cachedPlayers, p);
      }
    }

    /** The life of a MemberGuard around an assignment to a member: out of the caches, changed, back in. */
    method ChangeGuarded(id: UserId, changed: Member)
      requires Agree(Cached(), members) && id in members && changed.since == members[id].since
      modifies this`members, this`cachedUsers, this`cachedUsersAsSpectators, this`cachedPlayers, this`cachedSpectators,
               this`playersDisqualified
      ensures members == old(members)[id := changed] && Agree(Cached(), members)
    {
      TimesUnchanged(Cached(), members, id, changed);
      hide Agree, DistinctTimes, Removed, Added;
      ghost var others := members - {id};
      CachedRemove(id, members[id], members);
      members := members[id := changed];
      CachedAdd(id, changed, others);
    }

    // ----- Operations ------------------------------------------------------------------------------

    /** The decision at the start of `add_user`. */
    method Admit(how: JoinMethod) returns (status: Option<Status>, refusal: ChatError)
      requires Cohesive()
      ensures (status, refusal) == Admission(State(), how)
      ensures var place := |Having(members, Player)| < playerLimit;
              var seat := |Having(members, Waitlist)| + |Having(members, Spectator)| < spectatorLimit;
              && (how == AsPlayer ==> status == if place && !gameStarted then Some(Player) else None)
              && (how == AsSpectator ==> status == if seat then Some(Spectator) else None)
              && (how == AsPlayerWaiting ==>
                    status == if place then Some(Player) else if seat then Some(Spectator) else None)
    {
      CountsByStatus(members);
      hide Agree, PlayersIn, SpectatorsIn, Having, DistinctTimes, DisqualifiedPlay;
      var currentPlayers := PlayerCount();
      var currentSpectators := SpectatorCount();
      match how {
        case AsPlayer =>
          if currentPlayers >= playerLimit {
            return None, RoomFull;
          }
          if gameStarted {
            return None, NotAllowedDuringGame;
          }
          return Some(Player), RoomFull;
        case AsSpectator =>
          if currentSpectators < spectatorLimit {
            return Some(Spectator), RoomFull;
          }
          return None, RoomFull;
        case AsPlayerWaiting =>
          if currentPlayers < playerLimit {
            return Some(Player), RoomFull;
          } else if currentSpectators < spectatorLimit {
            return Some(Spectator), RoomFull;
          }
          return None, RoomFull;
      }
    }

    /** The insertion of a new member, who becomes the owner if there is none. */
    method Enter(id: UserId, status: Status)
      requires Agree(Cached(), members) && MembersInv(State()) && id !in members
      modifies this
      ensures Agree(Cached(), members)
      ensures State() == old(State()).(members := old(members)[id := Member(old(clock), status, false)],
                                       clock := old(clock) + 1,
                                       owner := if old(owner).None? then Some(id) else old(owner))
    {
      NewTime(State(), id, status);
      hide MembersInv, Agree, DistinctTimes, Added;
      ghost var others := members;
      var member := Member(clock, status, false);
      clock := clock + 1;
      members := members[id := member];
      CachedAdd(id, member, others);
      if owner.None? {
        owner := Some(id);
      }
    }

    method AddUser(id: UserId, how: JoinMethod) returns (error: Option<ChatError>)
      requires Valid() && id !in members
      modifies this
      ensures Valid() && State() == Join(old(State()), id, how)
      ensures error.None? <==> id in members
      ensures error.Some? ==>
                && State() == old(State())
                && (error.value == NotAllowedDuringGame <==>
                      how == AsPlayer && |Having(members, Player)| < playerLimit && gameStarted)
                && (error.value != NotAllowedDuringGame ==> error.value == RoomFull)
    {
      WhoIsRefused(State(), id, how);
      hide MembersInv, OwnerIsEarliest, Agree, Admission, Having, PlayersIn, SpectatorsIn, DistinctTimes, IsEarliest;
      JoinKeepsInv(State(), id, how);
      var status, refusal := Admit(how);
      if status.None? {
        return Some(refusal);
      }
      Enter(id, status.value);
      return None;
    }

    /** Outside a game, moves waitlisted members into free player slots, in the order they joined. */
    method FlushWaitlist()
      requires Cohesive()
      modifies this`members, this`cachedUsers, this`cachedUsersAsSpectators, this`cachedPlayers, this`cachedSpectators,
               this`playersDisqualified
      ensures Cohesive() && State() == Flush(old(State()))
    {
      ghost var s := State();
      hide Agree, IsCacheOf, IsListOf, WaitlistedIds, WaitingAmong, DistinctTimes, DisqualifiedPlay;
      hide PlayersIn, SpectatorsIn, Flush, Changed;
      var spectators := SpectatorCount();
      if gameStarted || spectators == 0 {
        NothingToFlush(s);
        return;
      }
      FlushKeepsInv(s);
      UsersAreCached(Cached(), members);

      // Outside a game every user counts as a spectator.
      var waitlisted: Cache := [];
      NobodyWaitingYet(members, cachedUsersAsSpectators);
      for k := 0 to |cachedUsersAsSpectators|
        invariant IsListOf(waitlisted, members, WaitingAmong(members, cachedUsersAsSpectators, k))
        modifies {}
      {
        var spectator := cachedUsersAsSpectators[k];
        WaitingNext(waitlisted, members, cachedUsersAsSpectators, k);
        if members[spectator.id].IsWaitlisted() {
          waitlisted := waitlisted + [spectator];
        }
      }
      AllWaiting(waitlisted, members, cachedUsersAsSpectators);

      var promoted := 0;
      NothingChangedYet(s, waitlisted, Player);
      var players := PlayerCount();
      while promoted < |waitlisted| && players < playerLimit
        invariant 0 <= promoted <= |waitlisted| && promoted <= Free(s)
        invariant State() == Changed(s, waitlisted, promoted, Player)
        invariant Agree(Cached(), members) && players == PlayersIn(s.members) + promoted
      {
        var member := waitlisted[promoted];
        ChangeNext(s, waitlisted, WaitlistedIds(s.members), promoted, Player);
        ChangeGuarded(member.id, members[member.id].(status := Player));
        promoted := promoted + 1;
        PromotedSoFar(s, waitlisted, promoted);
        players := PlayerCount();
      }
      FlushIsPrefix(s, waitlisted, promoted);
    }

    /** Turns the active players beyond the limit into waitlisted ones, in the order they joined. */
    method SetPlayerLimit(limit: nat) returns (error: Option<ChatError>)
      requires Valid() && (limit >= 1 ==> |DisqualifiedIds(members)| <= limit)
      modifies this`members, this`cachedUsers, this`cachedUsersAsSpectators, this`cachedPlayers, this`cachedSpectators,
               this`playersDisqualified
      ensures Valid()
      ensures limit < 1 ==> error == Some(NotAllowedOption) && State() == old(State())
      ensures limit >= 1 ==> error == None && State() == LimitPlayers(old(State()), limit)
    {
      ghost var s, active := State(), IdsOf(members, ActivePlayers);
      hide Agree, IsCacheOf, LimitPlayers, Changed, IsListOf, IdsOf, DistinctTimes, DisqualifiedPlay, OwnerIsEarliest;
      if limit < 1 {
        return Some(NotAllowedOption);
      }
      LimitKeepsInv(s, limit);
      UsersAreCached(Cached(), members);
      CountsFromCaches(Cached(), members);
      CacheIsList(cachedPlayers, members, ActivePlayers);
      CacheSize(cachedPlayers, members, ActivePlayers);
      var players := PlayerCount();
      var overflow := players - limit;
      if overflow > 0 {
        var remove := cachedPlayers[..overflow];
        ghost var list := cachedPlayers;
        NothingChangedYet(s, list, Waitlist);
        for k := 0 to |remove|
          invariant State() == Changed(s, list, k, Waitlist) && Agree(Cached(), members)
        {
          ChangeNext(s, list, active, k, Waitlist);
          var member := remove[k];
          ChangeGuarded(member.id, members[member.id].(status := Waitlist));
        }
        LimitIsPrefix(s, limit, list, overflow);
      } else {
        NothingToLimit(s, limit);
      }
      return None;
    }

    /** Flags a player as disqualified. */
    method DisqualifyPlayer(id: UserId)
      requires Valid() && id in members
      modifies this`members, this`cachedUsers, this`cachedUsersAsSpectators, this`cachedPlayers, this`cachedSpectators,
               this`playersDisqualified
      ensures Valid() && State() == Disqualify(old(State()), id)
    {
      hide Agree, MembersInv, OwnerIsEarliest;
      DisqualifyKeepsInv(State(), id);
      if !members[id].IsPlayer() {
        return;
      }
      ChangeGuarded(id, members[id].(disqualified := true));
    }

    /** Takes back every disqualification. */
    method ResetPlayers()
      requires Cohesive()
      modifies this`members, this`cachedUsers, this`cachedUsersAsSpectators, this`cachedPlayers, this`cachedSpectators,
               this`playersDisqualified
      ensures Agree(Cached(), members) && State() == old(State()).(members := Pardoned(old(members)))
    {
      hide Agree, MembersInv;
      ghost var ms := members;
      var rest := members.Keys;
      while rest != {}
        invariant rest <= ms.Keys && Agree(Cached(), members)
        invariant members == PardonedBut(ms, rest)
      {
        var id :| id in rest;
        PardonNext(ms, rest, id);
        if members[id].disqualified {
          ChangeGuarded(id, members[id].(disqualified := false));
        }
        rest := rest - {id};
      }
    }

    method EndGame()
      requires Cohesive()
      modifies this`members, this`cachedUsers, this`cachedUsersAsSpectators, this`cachedPlayers, this`cachedSpectators,
               this`playersDisqualified, this`gameStarted
      ensures Cohesive() && State() == RoomRules.EndGame(old(State()))
    {
      EndGameKeepsInv(State());
      hide Agree, MembersInv, Pardoned;
      ResetPlayers();
      gameStarted := false;
    }

    method LoadGame()
      requires Valid()
      modifies this
      ensures Valid() && State() == RoomRules.LoadGame(old(State()))
    {
      EndGameKeepsInv(State());
      hide Agree, OwnerIsEarliest;
      if gameLoaded && gameStarted {
        EndGame();
      }
      gameLoaded := true;
    }

    /** What `start_game` does before it hands over to the controller. */
    method StartGame() returns (error: Option<ChatError>)
      requires Valid()
      modifies this
      ensures Valid() && State() == RoomRules.StartGame(old(State()))
      ensures error == if old(gameLoaded) then None else Some(RequiresGame)
    {
      StartGameKeepsInv(State());
      hide Agree, MembersInv, OwnerIsEarliest, Pardoned;
      if !gameLoaded {
        return Some(RequiresGame);
      }
      ResetPlayers();
      gameStarted := true;
      return None;
    }

    method EraseMember(id: UserId)
      requires Agree(Cached(), members) && id in members
      modifies this`members, this`cachedUsers, this`cachedUsersAsSpectators, this`cachedPlayers, this`cachedSpectators,
               this`playersDisqualified
      ensures Agree(Cached(), members) && members == old(members) - {id}
    {
      hide Agree, Removed;
      CachedRemove(id, members[id], members);
      members := members - {id};
    }

    /** Shifts the owner to the next person, if it was the owner who left. */
    method ShiftOwner(id: UserId)
      requires Agree(Cached(), members)
      modifies this`owner
      ensures owner == if old(owner) == Some(id) then Earliest(members) else old(owner)
    {
      hide IsCacheOf, Earliest;
      FirstUserIsEarliest(cachedUsers, members);
      if owner == Some(id) {
        if members == map[] {
          owner := None;
        } else {
          owner := Some(cachedUsers[0].id);
        }
      }
    }

    /** A user leaves; somebody who is not a member leaves no trace. */
    method RemoveUser(id: UserId, quitEndsGame: bool)
      requires Valid()
      modifies this
      ensures Valid()
      ensures State() == if id in old(members) then Leave(old(State()), id, quitEndsGame) else old(State())
    {
      hide Agree, MembersInv, OwnerIsEarliest, Flush, RoomRules.EndGame, Earliest, Leave;
      if id !in members {
        return;
      }
      ghost var s := State();
      var member := members[id];
      LeaveKeepsInv(s, id, quitEndsGame);
      OwnerShiftsLast(s, id, quitEndsGame);
      EraseMember(id);

      // Notify the game, if they took part in it.
      if gameStarted && (member.IsPlayer() || member.IsDisqualified()) {
        if quitEndsGame {
          EndGame();
        }
      }
      assert State() == Told(s.(members := s.members - {id}), member, quitEndsGame);
      FlushWaitlist();
      ShiftOwner(id);
    }
  }

  lemma TimesUnchanged(c: Caches, ms: MemberMap, id: UserId, changed: Member)
    requires Agree(c, ms) && id in ms && changed.since == ms[id].since
    ensures (ms - {id})[id := changed] == ms[id := changed] && DistinctTimes(ms[id := changed])
  {
  }

  lemma WhoIsRefused(s: RoomState, id: UserId, how: JoinMethod)
    requires RoomInv(s) && id !in s.members
    ensures Admission(s, how).0.Some? <==> id in Join(s, id, how).members
    ensures Admission(s, how).0.None? ==>
              && Join(s, id, how) == s
              && (Admission(s, how).1 == NotAllowedDuringGame <==>
                    how == AsPlayer && |Having(s.members, Player)| < s.playerLimit && s.gameStarted)
              && (Admission(s, how).1 != NotAllowedDuringGame ==> Admission(s, how).1 == RoomFull)
  {
    CountsByStatus(s.members);
    hide PlayersIn, SpectatorsIn, Having, DisqualifiedPlay;
    if Admission(s, how).0.None? {
      RefusalByMethod(s, id, how);
    }
  }

  lemma LimitIsPrefix(s: RoomState, limit: nat, list: Cache, k: nat)
    requires IsListOf(list, s.members, IdsOf(s.members, ActivePlayers)) && k <= |list| && k == Overflow(s, limit)
    ensures Changed(s, list, k, Waitlist) == LimitPlayers(s, limit)
  {
    FirstToJoinIsPrefix(list, s.members, IdsOf(s.members, ActivePlayers), k, k);
  }

  lemma NothingToLimit(s: RoomState, limit: nat)
    requires Overflow(s, limit) <= 0
    ensures LimitPlayers(s, limit) == s
  {
  }

  /** The members with all but the rest pardoned. */
  ghost function PardonedBut(ms: MemberMap, rest: set<UserId>): MemberMap {
    map id | id in ms :: if id in rest then ms[id] else ms[id].(disqualified := false)
  }

  lemma PardonNext(ms: MemberMap, rest: set<UserId>, id: UserId)
    requires id in rest && rest <= ms.Keys
    ensures var before, after := PardonedBut(ms, rest), PardonedBut(ms, rest - {id});
            && id in before && before[id].since == ms[id].since
            && after == before[id := before[id].(disqualified := false)]
            && (!before[id].disqualified ==> after == before)
  {
  }

  /** The owner has no influence on how a game ends or the waitlist is flushed. */
  lemma OwnerPlaysNoPart(s: RoomState, t: RoomState)
    requires t == s.(owner := t.owner)
    ensures RoomRules.EndGame(t) == RoomRules.EndGame(s).(owner := t.owner)
    ensures Flush(t) == Flush(s).(owner := t.owner)
    ensures MembersInv(t) <==> MembersInv(s)
  {
  }

  /** It makes no difference that the owner is shifted last: the earliest of those left is the earliest still. */
  lemma OwnerShiftsLast(s: RoomState, id: UserId, quitEndsGame: bool)
    requires RoomInv(s) && id in s.members
    ensures var gone := s.(members := s.members - {id});
            var told := Told(gone, s.members[id], quitEndsGame);
            && MembersInv(gone) && MembersInv(told)
            && Leave(s, id, quitEndsGame) ==
                 Flush(told).(owner := if s.owner == Some(id) then Earliest(Flush(told).members) else s.owner)
  {
    hide MembersInv, SetStatus, FirstToJoin, Earliest, OwnerIsEarliest;
    var gone, gone' := s.(members := s.members - {id}), Gone(s, id);
    GoneKeepsInv(s, id);
    OwnerPlaysNoPart(gone', gone);
    EndGameKeepsInv(gone');
    var told, told' := Told(gone, s.members[id], quitEndsGame), Told(gone', s.members[id], quitEndsGame);
    OwnerPlaysNoPart(told', told);
    FlushKeepsInv(told');
    SameEarliest(gone'.members, told'.members);
    SameEarliest(told'.members, Flush(told').members);
  }

  lemma UsersAreCached(c: Caches, ms: MemberMap)
    requires Agree(c, ms)
    ensures IsCacheOf(c.users, ms, Users) && IsCacheOf(c.usersAsSpectators, ms, Users)
    ensures IsCacheOf(c.players, ms, ActivePlayers)
  {
  }
}
