/**
 What the operations of a room do to its members, owner and game state
 (module/chat/src/Room.cpp:106-165, 167-317, 509-579), stated without the caches, and what every run
 of them keeps true.
 */
module RoomRules {
  import opened FiniteSets
  import opened Wrappers
  import opened Members

  datatype RoomState = RoomState(
    members: MemberMap,
    owner: Option<UserId>,
    playerLimit: nat,
    spectatorLimit: nat,
    gameLoaded: bool,
    gameStarted: bool,
    clock: nat)

  datatype ChatError = RoomFull | NotAllowedDuringGame | NotAllowedOption | RequiresGame

  const INITIAL := RoomState(map[], None, 8, 12, false, false, 0)

  // ----- Counts ------------------------------------------------------------------------------------

  /** Active players and disqualified members: what Room::player_count adds up. */
  ghost function PlayersIn(ms: MemberMap): nat {
    |IdsOf(ms, ActivePlayers)| + |DisqualifiedIds(ms)|
  }

  /** Watchers less the disqualified among them: what Room::spectator_count subtracts. */
  ghost function SpectatorsIn(ms: MemberMap): nat {
    DisqualifiedWatch(ms);
    |IdsOf(ms, Watchers)| - |DisqualifiedIds(ms)|
  }

  lemma DisqualifiedWatch(ms: MemberMap)
    ensures |DisqualifiedIds(ms)| <= |IdsOf(ms, Watchers)|
  {
    assert forall id :: id in DisqualifiedIds(ms) ==> id in IdsOf(ms, Watchers);
    SubsetSize(DisqualifiedIds(ms), IdsOf(ms, Watchers));
  }

  /** Disqualification happens to players. */
  ghost predicate DisqualifiedPlay(ms: MemberMap) {
    forall id :: id in ms && ms[id].IsDisqualified() ==> ms[id].IsPlayer()
  }

  ghost function WithStatus(ms: MemberMap, players: bool): set<UserId> {
    set id | id in ms && ms[id].IsPlayer() == players
  }

  ghost function Having(ms: MemberMap, status: Status): set<UserId> {
    set id | id in ms && ms[id].status == status
  }

  /** If so, the counts are those of the members with each status, and add up to all of them. */
  lemma CountsByStatus(ms: MemberMap)
    requires DisqualifiedPlay(ms)
    ensures PlayersIn(ms) == |WithStatus(ms, true)| && SpectatorsIn(ms) == |WithStatus(ms, false)|
    ensures PlayersIn(ms) == |Having(ms, Player)|
    ensures SpectatorsIn(ms) == |Having(ms, Waitlist)| + |Having(ms, Spectator)|
    ensures PlayersIn(ms) + SpectatorsIn(ms) == |ms|
  {
    assert Having(ms, Player) == WithStatus(ms, true);
    assert forall id :: id in WithStatus(ms, false) <==> id in Having(ms, Waitlist) || id in Having(ms, Spectator);
    DisjointSize(Having(ms, Waitlist), Having(ms, Spectator), WithStatus(ms, false));
    assert forall id :: id in WithStatus(ms, true) <==> id in IdsOf(ms, ActivePlayers) || id in DisqualifiedIds(ms);
    assert forall id :: id in IdsOf(ms, Watchers) <==> id in WithStatus(ms, false) || id in DisqualifiedIds(ms);
    assert forall id :: id in DisqualifiedIds(ms) ==> id !in IdsOf(ms, ActivePlayers) && id !in WithStatus(ms, false);
    DisjointSize(IdsOf(ms, ActivePlayers), DisqualifiedIds(ms), WithStatus(ms, true));
    DisjointSize(WithStatus(ms, false), DisqualifiedIds(ms), IdsOf(ms, Watchers));
    DisjointSize(WithStatus(ms, true), WithStatus(ms, false), ms.Keys);
  }

  // ----- Changes of several members ----------------------------------------------------------------

  ghost function SetStatus(ms: MemberMap, ids: set<UserId>, status: Status): MemberMap {
    map id | id in ms :: if id in ids then ms[id].(status := status) else ms[id]
  }

  ghost function Pardoned(ms: MemberMap): MemberMap {
    map id | id in ms :: ms[id].(disqualified := false)
  }

  ghost function WaitlistedIds(ms: MemberMap): set<UserId> {
    set id | id in ms && ms[id].IsWaitlisted()
  }

  /** The members of a group who joined before a given time. */
  ghost function JoinedBefore(ms: MemberMap, group: set<UserId>, time: nat): set<UserId> {
    set id | id in group && id in ms && ms[id].since < time
  }

  /** The n members of a group who joined first (all of it, if it is no larger). */
  ghost function FirstToJoin(ms: MemberMap, group: set<UserId>, n: int): set<UserId> {
    set id | id in group && id in ms && |JoinedBefore(ms, group, ms[id].since)| < n
  }

  // ----- Operations --------------------------------------------------------------------------------

  datatype JoinMethod = AsPlayer | AsPlayerWaiting | AsSpectator

  /** The status a user who is not a member gets, or why the room refuses. */
  ghost function Admission(s: RoomState, how: JoinMethod): (Option<Status>, ChatError) {
    var roomForPlayer := PlayersIn(s.members) < s.playerLimit;
    var roomForSpectator := SpectatorsIn(s.members) < s.spectatorLimit;
    match how
    case AsPlayer =>
      if !roomForPlayer then (None, RoomFull)
      else if s.gameStarted then (None, NotAllowedDuringGame)
      else (Some(Player), RoomFull)
    case AsSpectator => if roomForSpectator then (Some(Spectator), RoomFull) else (None, RoomFull)
    case AsPlayerWaiting =>
      if roomForPlayer then (Some(Player), RoomFull)
      else if roomForSpectator then (Some(Spectator), RoomFull)
      else (None, RoomFull)
  }

  ghost function Join(s: RoomState, id: UserId, how: JoinMethod): RoomState
    requires id !in s.members
  {
    var (status, _) := Admission(s, how);
    if status.None? then s
    else s.(members := s.members[id := Member(s.clock, status.value, false)], clock := s.clock + 1,
            owner := if s.owner.None? then Some(id) else s.owner)
  }

  /** Places left for players. */
  ghost function Free(s: RoomState): int {
    s.playerLimit - PlayersIn(s.members)
  }

  /** Outside a game the earliest waitlisted members that fit become players. */
  ghost function Flush(s: RoomState): RoomState {
    if s.gameStarted then s
    else s.(members := SetStatus(s.members, FirstToJoin(s.members, WaitlistedIds(s.members), Free(s)), Player))
  }

  ghost function EndGame(s: RoomState): RoomState {
    s.(members := Pardoned(s.members), gameStarted := false)
  }

  /** The member who joined first. */
  ghost predicate IsEarliest(ms: MemberMap, id: UserId) {
    id in ms && forall other :: other in ms && other != id ==> ms[id].since < ms[other].since
  }

  ghost predicate OwnerIsEarliest(s: RoomState) {
    match s.owner
    case None => s.members == map[]
    case Some(id) => IsEarliest(s.members, id)
  }

  /** The earliest member, if there is any. */
  ghost function Earliest(ms: MemberMap): Option<UserId> {
    if exists id :: IsEarliest(ms, id) then
      var id :| IsEarliest(ms, id);
      Some(id)
    else None
  }

  /** A member is gone; an owner who left is replaced by the earliest member, if any. */
  ghost function Gone(s: RoomState, id: UserId): RoomState {
    var rest := s.members - {id};
    s.(members := rest, owner := if s.owner == Some(id) then Earliest(rest) else s.owner)
  }

  /** If they took part in a game the controller is told, and may end it. */
  ghost function Told(s: RoomState, m: Member, quitEndsGame: bool): RoomState {
    if s.gameStarted && (m.IsPlayer() || m.IsDisqualified()) && quitEndsGame then EndGame(s) else s
  }

  /** Then the waitlist is flushed. */
  ghost function Leave(s: RoomState, id: UserId, quitEndsGame: bool): RoomState
    requires id in s.members
  {
    Flush(Told(Gone(s, id), s.members[id], quitEndsGame))
  }

  /** How many active players a lower limit turns into waitlisted ones. */
  ghost function Overflow(s: RoomState, limit: nat): int {
    PlayersIn(s.members) - limit
  }

  ghost function LimitPlayers(s: RoomState, limit: nat): RoomState {
    var first := FirstToJoin(s.members, IdsOf(s.members, ActivePlayers), Overflow(s, limit));
    s.(members := SetStatus(s.members, first, Waitlist))
  }

  ghost function Disqualify(s: RoomState, id: UserId): RoomState
    requires id in s.members
  {
    if s.members[id].IsPlayer() then s.(members := s.members[id := s.members[id].(disqualified := true)]) else s
  }

  ghost function StartGame(s: RoomState): RoomState {
    if s.gameLoaded then s.(members := Pardoned(s.members), gameStarted := true) else s
  }

  ghost function LoadGame(s: RoomState): RoomState {
    if s.gameLoaded && s.gameStarted then EndGame(s) else s.(gameLoaded := true)
  }

  // ----- Invariant ---------------------------------------------------------------------------------

  ghost predicate MembersInv(s: RoomState) {
    && DistinctTimes(s.members)
    && (forall id :: id in s.members ==> s.members[id].since < s.clock)
    && DisqualifiedPlay(s.members)
    && PlayersIn(s.members) <= s.playerLimit
  }

  ghost predicate RoomInv(s: RoomState) {
    MembersInv(s) && OwnerIsEarliest(s)
  }

  // ----- First to join -----------------------------------------------------------------------------

  /** The member of a group who joined last. */
  lemma {:induction false} LastToJoin(ms: MemberMap, group: set<UserId>) returns (last: UserId)
    requires group != {} && group <= ms.Keys
    ensures last in group && forall id :: id in group ==> ms[id].since <= ms[last].since
  {
    var one :| one in group;
    var rest := group - {one};
    assert forall id :: id in group ==> id == one || id in rest;
    last := one;
    if rest != {} {
      var other := LastToJoin(ms, rest);
      last := if ms[other].since > ms[one].since then other else one;
    }
  }

  /** The first n to join are n members, or the whole group if that is fewer. */
  lemma {:induction false} FirstToJoinSize(ms: MemberMap, group: set<UserId>, n: int)
    requires DistinctTimes(ms) && group <= ms.Keys && n >= 0
    ensures |FirstToJoin(ms, group, n)| == if n < |group| then n else |group|
    ensures n >= |group| ==> FirstToJoin(ms, group, n) == group
    ensures FirstToJoin(ms, group, n) <= group
    decreases |group|
  {
    if group == {} {
      assert FirstToJoin(ms, group, n) == {};
    } else {
      var last := LastToJoin(ms, group);
      FirstToJoinSize(ms, group - {last}, n);
      LastIsAsWell(ms, group, last, n);
    }
  }

  /** Whoever joined last is among the first n exactly when there are no n others. */
  lemma LastIsAsWell(ms: MemberMap, group: set<UserId>, last: UserId, n: int)
    requires DistinctTimes(ms) && group <= ms.Keys && last in group
    requires forall id :: id in group ==> ms[id].since <= ms[last].since
    ensures FirstToJoin(ms, group, n) == FirstToJoin(ms, group - {last}, n) + (if |group| - 1 < n then {last} else {})
  {
    var rest := group - {last};
    assert JoinedBefore(ms, group, ms[last].since) == rest;
    forall id | id in rest
      ensures JoinedBefore(ms, group, ms[id].since) == JoinedBefore(ms, rest, ms[id].since)
    {
    }
    forall id | id in group
      ensures id in FirstToJoin(ms, group, n) <==> if id == last then |rest| < n else id in FirstToJoin(ms, rest, n)
    {
    }
  }

  /** Whoever is among the first to join has joined before everybody of the group who is not. */
  lemma FirstToJoinAreEarliest(ms: MemberMap, group: set<UserId>, n: int, i: UserId, j: UserId)
    requires group <= ms.Keys && i in FirstToJoin(ms, group, n) && j in group && j !in FirstToJoin(ms, group, n)
    ensures ms[i].since < ms[j].since
  {
    if ms[j].since <= ms[i].since {
      var before := JoinedBefore(ms, group, ms[j].since);
      assert forall id :: id in before ==> id in JoinedBefore(ms, group, ms[i].since);
      SubsetSize(before, JoinedBefore(ms, group, ms[i].since));
    }
  }

  // ----- What each change does to the counts and the order -----------------------------------------

  /** Same members, same join times: the order of joining is the same. */
  ghost predicate SameTimes(ms: MemberMap, ms': MemberMap) {
    ms.Keys == ms'.Keys && forall id :: id in ms ==> ms'[id].since == ms[id].since
  }

  lemma SameTimesKeepOrder(s: RoomState, s': RoomState)
    requires SameTimes(s.members, s'.members) && s'.owner == s.owner && s'.clock == s.clock
    requires DistinctTimes(s.members)
    requires forall id :: id in s.members ==> s.members[id].since < s.clock
    ensures DistinctTimes(s'.members) && (OwnerIsEarliest(s) ==> OwnerIsEarliest(s'))
    ensures forall id :: id in s'.members ==> s'.members[id].since < s'.clock
  {
  }

  lemma StatusChangeTimes(ms: MemberMap, ids: set<UserId>, status: Status)
    ensures SameTimes(ms, SetStatus(ms, ids, status))
    ensures ids == {} ==> SetStatus(ms, ids, status) == ms
  {
  }

  /** Turning waitlisted members into players, or active players into waitlisted ones. */
  lemma StatusChangeCounts(ms: MemberMap, ids: set<UserId>, status: Status)
    requires DisqualifiedPlay(ms) && ids <= ms.Keys
    requires forall id :: id in ids ==> !ms[id].IsDisqualified() && ms[id].IsPlayer() != (status == Player)
    ensures DisqualifiedPlay(SetStatus(ms, ids, status))
    ensures status == Player ==> PlayersIn(SetStatus(ms, ids, status)) == PlayersIn(ms) + |ids|
    ensures status != Player ==> PlayersIn(SetStatus(ms, ids, status)) == PlayersIn(ms) - |ids|
  {
    var ms' := SetStatus(ms, ids, status);
    CountsByStatus(ms);
    CountsByStatus(ms');
    if status == Player {
      assert forall id :: id in WithStatus(ms', true) <==> id in WithStatus(ms, true) || id in ids;
      DisjointSize(WithStatus(ms, true), ids, WithStatus(ms', true));
    } else {
      assert forall id :: id in WithStatus(ms, true) <==> id in WithStatus(ms', true) || id in ids;
      DisjointSize(WithStatus(ms', true), ids, WithStatus(ms, true));
    }
  }

  /** Disqualifying players, or pardoning them, moves nobody between players and spectators. */
  lemma SameStatusCounts(ms: MemberMap, ms': MemberMap)
    requires DisqualifiedPlay(ms) && DisqualifiedPlay(ms') && ms.Keys == ms'.Keys
    requires forall id :: id in ms ==> ms'[id].status == ms[id].status
    ensures PlayersIn(ms') == PlayersIn(ms)
  {
    CountsByStatus(ms);
    CountsByStatus(ms');
    assert WithStatus(ms', true) == WithStatus(ms, true);
  }

  lemma RemovalCounts(ms: MemberMap, id: UserId)
    requires DisqualifiedPlay(ms) && id in ms
    ensures DisqualifiedPlay(ms - {id})
    ensures PlayersIn(ms - {id}) == PlayersIn(ms) - (if ms[id].IsPlayer() then 1 else 0)
  {
    CountsByStatus(ms);
    CountsByStatus(ms - {id});
    assert WithStatus(ms - {id}, true) == WithStatus(ms, true) - {id};
  }

  // ----- Each operation keeps the invariant --------------------------------------------------------

  /** A join is refused without a trace, or adds one member who joined last, with room for them. */
  lemma JoinKeepsInv(s: RoomState, id: UserId, how: JoinMethod)
    requires RoomInv(s) && id !in s.members
    ensures RoomInv(Join(s, id, how))
    ensures Admission(s, how).0.None? ==> Join(s, id, how) == s
  {
    var s' := Join(s, id, how);
    if Admission(s, how).0.Some? {
      assert s'.members - {id} == s.members;
      hide PlayersIn, SpectatorsIn;
      RemovalCounts(s'.members, id);
    }
  }

  /** Everybody in the room stays as they are, and nobody comes in but the one who joins. */
  ghost predicate OthersStay(ms: MemberMap, id: UserId, ms': MemberMap) {
    && ms'.Keys <= ms.Keys + {id}
    && forall other :: other in ms && other != id ==> other in ms' && ms'[other] == ms[other]
  }

  /**
   Who gets in, and as what: a player joins while there is a free place and no game runs; who is willing to
   wait becomes a player while there is one, else a spectator while there is room for one; a spectator joins
   while there is.
   */
  lemma JoinByMethod(s: RoomState, id: UserId, how: JoinMethod)
    requires DisqualifiedPlay(s.members) && id !in s.members
    ensures var players := |Having(s.members, Player)|;
            var watchers := |Having(s.members, Waitlist)| + |Having(s.members, Spectator)|;
            var place, seat := players < s.playerLimit, watchers < s.spectatorLimit;
            var s' := Join(s, id, how);
            && OthersStay(s.members, id, s'.members)
            && (id in s'.members ==> s'.members[id].since == s.clock < s'.clock && !s'.members[id].disqualified)
            && (how == AsPlayer ==>
                  && (id in s'.members <==> place && !s.gameStarted)
                  && (id in s'.members ==> s'.members[id].status == Player))
            && (how == AsPlayerWaiting ==>
                  && (id in s'.members <==> place || seat)
                  && (id in s'.members ==> s'.members[id].status == if place then Player else Spectator))
            && (how == AsSpectator ==>
                  && (id in s'.members <==> seat)
                  && (id in s'.members ==> s'.members[id].status == Spectator))
  {
    CountsByStatus(s.members);
    hide PlayersIn, SpectatorsIn, Having, DisqualifiedPlay;
  }

  /** Why somebody is refused. */
  lemma RefusalByMethod(s: RoomState, id: UserId, how: JoinMethod)
    requires DisqualifiedPlay(s.members) && id !in s.members && id !in Join(s, id, how).members
    ensures Admission(s, how).1 ==
              if how == AsPlayer && |Having(s.members, Player)| < s.playerLimit then NotAllowedDuringGame else RoomFull
  {
    CountsByStatus(s.members);
    hide PlayersIn, SpectatorsIn, Having, DisqualifiedPlay;
  }

  /** Flushing keeps everybody's join time, and moves into the free places as many as fit. */
  lemma FlushKeepsInv(s: RoomState)
    requires MembersInv(s)
    ensures MembersInv(Flush(s)) && SameTimes(s.members, Flush(s).members) && Flush(s).members.Keys == s.members.Keys
    ensures OwnerIsEarliest(s) ==> OwnerIsEarliest(Flush(s))
    ensures !s.gameStarted ==>
              var first := FirstToJoin(s.members, WaitlistedIds(s.members), Free(s));
              PlayersIn(Flush(s).members) == PlayersIn(s.members) + |first|
  {
    if !s.gameStarted {
      var ms, waiting := s.members, WaitlistedIds(s.members);
      FirstToJoinSize(ms, waiting, Free(s));
      StatusChangeTimes(ms, FirstToJoin(ms, waiting, Free(s)), Player);
      hide SetStatus, FirstToJoin, PlayersIn, OwnerIsEarliest, DistinctTimes;
      StatusChangeCounts(ms, FirstToJoin(ms, waiting, Free(s)), Player);
      SameTimesKeepOrder(s, Flush(s));
    }
  }

  /** Outside a game the waitlist ends empty or the player list full. */
  lemma FlushFillsUp(s: RoomState)
    requires RoomInv(s) && !s.gameStarted
    ensures WaitlistedIds(Flush(s).members) == {} || PlayersIn(Flush(s).members) == s.playerLimit
  {
    var waiting := WaitlistedIds(s.members);
    FlushKeepsInv(s);
    FirstToJoinSize(s.members, waiting, Free(s));
    assert WaitlistedIds(Flush(s).members) == waiting - FirstToJoin(s.members, waiting, Free(s));
  }

  /**
   Those it promotes are the earliest waitlisted, as many as fit, and only outside a game; it changes nobody
   else.
   */
  lemma FlushPromotesEarliest(s: RoomState, id: UserId)
    requires RoomInv(s) && id in s.members
    ensures var waiting, m := Having(s.members, Waitlist), s.members[id];
            var ranked := |JoinedBefore(s.members, waiting, m.since)|;
            Flush(s).members[id] ==
              if !s.gameStarted && m.status == Waitlist && |Having(s.members, Player)| + ranked < s.playerLimit
              then m.(status := Player) else m
    ensures Flush(s).members.Keys == s.members.Keys && Flush(s) == s.(members := Flush(s).members)
    ensures forall j :: j in s.members && s.members[j].status == Waitlist == s.members[id].status
              && Flush(s).members[id].status == Player && Flush(s).members[j].status == Waitlist
              ==> s.members[id].since < s.members[j].since
  {
    CountsByStatus(s.members);
    assert Having(s.members, Waitlist) == WaitlistedIds(s.members);
    forall j | j in s.members && s.members[j].status == Waitlist == s.members[id].status
        && Flush(s).members[id].status == Player && Flush(s).members[j].status == Waitlist
      ensures s.members[id].since < s.members[j].since
    {
      FirstToJoinAreEarliest(s.members, WaitlistedIds(s.members), Free(s), id, j);
    }
  }

  /** A lower limit leaves exactly that many players, or the disqualified ones if they are more. */
  lemma LimitKeepsInv(s: RoomState, limit: nat)
    requires MembersInv(s)
    ensures MembersInv(LimitPlayers(s, limit)) && (OwnerIsEarliest(s) ==> OwnerIsEarliest(LimitPlayers(s, limit)))
    ensures Overflow(s, limit) > 0 ==>
              var disqualified := |DisqualifiedIds(s.members)|;
              PlayersIn(LimitPlayers(s, limit).members) == if disqualified <= limit then limit else disqualified
    ensures Overflow(s, limit) <= 0 ==> LimitPlayers(s, limit).members == s.members
  {
    var ms, active, overflow := s.members, IdsOf(s.members, ActivePlayers), Overflow(s, limit);
    var first := FirstToJoin(ms, active, overflow);
    if overflow > 0 {
      FirstToJoinSize(ms, active, overflow);
    } else {
      assert first == {};
    }
    StatusChangeTimes(ms, first, Waitlist);
    hide SetStatus, FirstToJoin, PlayersIn, OwnerIsEarliest, DistinctTimes;
    StatusChangeCounts(ms, first, Waitlist);
    SameTimesKeepOrder(s, LimitPlayers(s, limit));
  }

  /** The players who are not disqualified. */
  ghost function Playing(ms: MemberMap): set<UserId> {
    set id | id in ms && ms[id].status == Player && !ms[id].disqualified
  }

  /** Those it waitlists are the active players who joined first; it changes nobody else. */
  lemma LimitWaitlistsEarliest(s: RoomState, limit: nat, id: UserId)
    requires RoomInv(s) && id in s.members
    ensures var playing, m := Playing(s.members), s.members[id];
            var ranked := |JoinedBefore(s.members, playing, m.since)|;
            LimitPlayers(s, limit).members[id] ==
              if id in playing && ranked + limit < |Having(s.members, Player)| then m.(status := Waitlist) else m
    ensures LimitPlayers(s, limit).members.Keys == s.members.Keys
    ensures LimitPlayers(s, limit) == s.(members := LimitPlayers(s, limit).members)
    ensures forall j :: j in Playing(s.members) && id in Playing(s.members)
              && LimitPlayers(s, limit).members[id].status == Waitlist
              && LimitPlayers(s, limit).members[j].status == Player
              ==> s.members[id].since < s.members[j].since
  {
    var active := IdsOf(s.members, ActivePlayers);
    CountsByStatus(s.members);
    assert Playing(s.members) == active;
    forall j | j in active && id in active
        && LimitPlayers(s, limit).members[id].status == Waitlist && LimitPlayers(s, limit).members[j].status == Player
      ensures s.members[id].since < s.members[j].since
    {
      FirstToJoinAreEarliest(s.members, active, Overflow(s, limit), id, j);
    }
  }

  lemma EndGameKeepsInv(s: RoomState)
    requires MembersInv(s)
    ensures MembersInv(EndGame(s)) && EndGame(s).members.Keys == s.members.Keys
    ensures OwnerIsEarliest(s) ==> OwnerIsEarliest(EndGame(s))
    ensures DisqualifiedIds(EndGame(s).members) == {}
  {
    SameStatusCounts(s.members, EndGame(s).members);
    SameTimesKeepOrder(s, EndGame(s));
  }

  lemma StartGameKeepsInv(s: RoomState)
    requires RoomInv(s)
    ensures RoomInv(StartGame(s)) && RoomInv(LoadGame(s))
  {
    EndGameKeepsInv(s);
  }

  lemma DisqualifyKeepsInv(s: RoomState, id: UserId)
    requires RoomInv(s) && id in s.members
    ensures RoomInv(Disqualify(s, id))
  {
    var s' := Disqualify(s, id);
    SameStatusCounts(s.members, s'.members);
    hide PlayersIn, OwnerIsEarliest, DistinctTimes;
    SameTimesKeepOrder(s, s');
  }

  lemma {:induction false} EarliestExists(ms: MemberMap)
    requires DistinctTimes(ms) && ms != map[]
    ensures exists id :: IsEarliest(ms, id)
  {
    var id :| id in ms.Keys;
    var rest := ms - {id};
    assert forall other :: other in ms ==> other == id || other in rest;
    if rest == map[] {
      assert IsEarliest(ms, id);
    } else {
      EarliestExists(rest);
      var first :| IsEarliest(rest, first);
      assert IsEarliest(ms, if ms[id].since < ms[first].since then id else first);
    }
  }

  lemma GoneKeepsInv(s: RoomState, id: UserId)
    requires RoomInv(s) && id in s.members
    ensures RoomInv(Gone(s, id))
  {
    var rest := s.members - {id};
    RemovalCounts(s.members, id);
    if s.owner == Some(id) {
      if rest != map[] {
        EarliestExists(rest);
      }
    } else {
      assert s.owner.value in rest;
    }
  }

  /** A leave removes one member and keeps the invariant: the owner is again the member who joined first. */
  lemma LeaveKeepsInv(s: RoomState, id: UserId, quitEndsGame: bool)
    requires RoomInv(s) && id in s.members
    ensures RoomInv(Leave(s, id, quitEndsGame)) && Leave(s, id, quitEndsGame).members.Keys == s.members.Keys - {id}
  {
    GoneKeepsInv(s, id);
    EndGameKeepsInv(Gone(s, id));
    FlushKeepsInv(Told(Gone(s, id), s.members[id], quitEndsGame));
  }

  /**
   What a leave does to those who stay.  A game is over exactly if one was running and the controller ended it
   on hearing of somebody who took part; while it runs nobody changes, and afterwards nobody is disqualified.
   */
  lemma LeaveChanges(s: RoomState, id: UserId, quitEndsGame: bool, other: UserId)
    requires RoomInv(s) && id in s.members && other in s.members && other != id
    ensures var s', m := Leave(s, id, quitEndsGame), s.members[other];
            && (s'.gameStarted <==>
                  s.gameStarted && !(quitEndsGame && (s.members[id].status == Player || s.members[id].disqualified)))
            && other in s'.members && s'.members[other].since == m.since
            && (s'.gameStarted ==> s'.members[other] == m)
            && (!s'.gameStarted ==>
                  s'.members[other].status == m.status || (m.status == Waitlist && s'.members[other].status == Player))
            && (!s'.gameStarted ==> s'.members[other].disqualified == (m.disqualified && !s.gameStarted))
  {
  }

  /** Loading a game leaves none running, and nobody disqualified by one that was. */
  lemma LoadEndsGame(s: RoomState)
    requires s.gameStarted ==> s.gameLoaded
    ensures LoadGame(s).gameLoaded && !LoadGame(s).gameStarted
    ensures s.gameStarted ==> DisqualifiedIds(LoadGame(s).members) == {}
  {
  }

  /** A game starts only where one is loaded, and with nobody disqualified. */
  lemma StartsIfLoaded(s: RoomState)
    ensures StartGame(s).gameStarted <==> s.gameStarted || s.gameLoaded
    ensures s.gameLoaded ==> DisqualifiedIds(StartGame(s).members) == {}
    ensures !s.gameLoaded ==> StartGame(s) == s
  {
  }

  lemma SameEarliest(ms: MemberMap, ms': MemberMap)
    requires SameTimes(ms, ms')
    ensures Earliest(ms) == Earliest(ms')
  {
    if id :| IsEarliest(ms, id) {
      assert IsEarliest(ms', id);
    }
    if id :| IsEarliest(ms', id) {
      assert IsEarliest(ms, id);
    }
  }

  // ----- Every run ---------------------------------------------------------------------------------

  datatype Op =
    | JoinOp(id: UserId, how: JoinMethod)
    | LeaveOp(id: UserId, quitEndsGame: bool)
    | FlushOp
    | LimitOp(limit: nat)
    | DisqualifyOp(id: UserId)
    | PardonOp
    | LoadOp
    | StartOp
    | EndOp

  /** Users join who are not members, members leave, and no limit is set below the number of disqualified players. */
  ghost predicate Allowed(s: RoomState, op: Op) {
    match op
    case JoinOp(id, _) => id !in s.members
    case LeaveOp(id, _) => id in s.members
    case LimitOp(limit) => limit >= 1 && |DisqualifiedIds(s.members)| <= limit
    case DisqualifyOp(id) => id in s.members
    case _ => true
  }

  ghost function Do(s: RoomState, op: Op): RoomState
    requires Allowed(s, op)
  {
    match op
    case JoinOp(id, how) => Join(s, id, how)
    case LeaveOp(id, quitEndsGame) => Leave(s, id, quitEndsGame)
    case FlushOp => Flush(s)
    case LimitOp(limit) => LimitPlayers(s, limit)
    case DisqualifyOp(id) => Disqualify(s, id)
    case PardonOp => s.(members := Pardoned(s.members))
    case LoadOp => LoadGame(s)
    case StartOp => StartGame(s)
    case EndOp => EndGame(s)
  }

  ghost predicate IsRun(s: RoomState, ops: seq<Op>)
    decreases |ops|
  {
    ops == [] || (Allowed(s, ops[0]) && IsRun(Do(s, ops[0]), ops[1..]))
  }

  ghost function After(s: RoomState, ops: seq<Op>): RoomState
    requires IsRun(s, ops)
    decreases |ops|
  {
    if ops == [] then s else After(Do(s, ops[0]), ops[1..])
  }

  lemma DoKeepsInv(s: RoomState, op: Op)
    requires RoomInv(s) && Allowed(s, op)
    ensures RoomInv(Do(s, op))
  {
    match op
    case JoinOp(id, how) => JoinKeepsInv(s, id, how);
    case LeaveOp(id, quitEndsGame) => LeaveKeepsInv(s, id, quitEndsGame);
    case FlushOp => FlushKeepsInv(s);
    case LimitOp(limit) => LimitKeepsInv(s, limit);
    case DisqualifyOp(id) => DisqualifyKeepsInv(s, id);
    case PardonOp => EndGameKeepsInv(s);
    case LoadOp => StartGameKeepsInv(s);
    case StartOp => StartGameKeepsInv(s);
    case EndOp => EndGameKeepsInv(s);
  }

  lemma {:induction false} RunKeepsInv(s: RoomState, ops: seq<Op>)
    requires RoomInv(s) && IsRun(s, ops)
    ensures RoomInv(After(s, ops))
    decreases |ops|
  {
    if ops != [] {
      DoKeepsInv(s, ops[0]);
      RunKeepsInv(Do(s, ops[0]), ops[1..]);
    }
  }

  /** Runs change no limits, and a game runs only where one is loaded. */
  lemma {:induction false} RunKeepsLimits(s: RoomState, ops: seq<Op>)
    requires IsRun(s, ops) && (s.gameStarted ==> s.gameLoaded)
    ensures After(s, ops).playerLimit == s.playerLimit && After(s, ops).spectatorLimit == s.spectatorLimit
    ensures After(s, ops).gameStarted ==> After(s, ops).gameLoaded
    decreases |ops|
  {
    if ops != [] {
      RunKeepsLimits(Do(s, ops[0]), ops[1..]);
    }
  }

  /**
   After every run: whoever is disqualified is a player, the players fit the limit of eight, players and
   spectators together are all users, a running game is loaded, and the owner is the earliest member, or null
   if there is none.
   */
  lemma EveryRun(ops: seq<Op>)
    requires IsRun(INITIAL, ops)
    ensures var s := After(INITIAL, ops);
            && (forall id :: id in s.members && s.members[id].disqualified ==> s.members[id].status == Player)
            && PlayersIn(s.members) == |Having(s.members, Player)| <= 8
            && SpectatorsIn(s.members) == |Having(s.members, Waitlist)| + |Having(s.members, Spectator)|
            && PlayersIn(s.members) + SpectatorsIn(s.members) == |s.members|
            && s.playerLimit == 8 && s.spectatorLimit == 12 && (s.gameStarted ==> s.gameLoaded)
            && (s.owner.None? <==> s.members == map[])
            && (s.owner.Some? ==> IsEarliest(s.members, s.owner.value))
  {
    RunKeepsInv(INITIAL, ops);
    RunKeepsLimits(INITIAL, ops);
    CountsByStatus(After(INITIAL, ops).members);
  }
}
