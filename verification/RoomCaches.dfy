/**
 The members of a room and the ordered caches of them: module/chat/src/Member.cpp:41-59, 84-90,
 module/chat/include/Room.hpp:108-120 and module/chat/src/Room.cpp:19-27, 72-104.
 */
module Members {

  datatype UserId = UserId(value: string)

  datatype Status = Player | Waitlist | Spectator

  /** `since` is the join time; it is drawn from a clock that never shows the same time twice. */
  datatype Member = Member(since: nat, status: Status, disqualified: bool) {
    predicate IsPlayer() { status == Player }
    predicate IsSpectator() { status == Spectator || status == Waitlist }
    predicate IsWaitlisted() { status == Waitlist }
    predicate IsDisqualified() { disqualified }
  }

  type MemberMap = map<UserId, Member>

  /** The four sets a member can be cached in, two of which hold everybody. */
  datatype Kind = Users | ActivePlayers | Watchers

  predicate Belongs(kind: Kind, m: Member) {
    match kind
    case Users => true
    case ActivePlayers => m.IsPlayer() && !m.IsDisqualified()
    case Watchers => m.IsSpectator() || m.IsDisqualified()
  }

  ghost function IdsOf(ms: MemberMap, kind: Kind): set<UserId> {
    set id | id in ms && Belongs(kind, ms[id])
  }

  ghost function DisqualifiedIds(ms: MemberMap): set<UserId> {
    set id | id in ms && ms[id].IsDisqualified()
  }

  /** No two members joined at the same time. */
  ghost predicate DistinctTimes(ms: MemberMap) {
    forall i, j :: i in ms && j in ms && i != j ==> ms[i].since != ms[j].since
  }
}

module OrderedCaches {
  import opened Members

  /** A pointer to a member: its identity and the join time pointers are compared by. */
  datatype MemberPtr = MemberPtr(id: UserId, since: nat)

  type Cache = seq<MemberPtr>

  ghost predicate IsSorted(s: Cache) {
    forall i, j :: 0 <= i < j < |s| ==> s[i].since < s[j].since
  }

  /** std::set::insert: keeps the order; an entry with the same join time is left as it is. */
  function Insert(s: Cache, p: MemberPtr): Cache {
    if s == [] then [p]
    else if p.since < s[0].since then [p] + s
    else if p.since == s[0].since then s
    else [s[0]] + Insert(s[1..], p)
  }

  /** std::set::erase by key: drops the entry with the same join time. */
  function Erase(s: Cache, p: MemberPtr): Cache {
    if s == [] then []
    else if s[0].since == p.since then s[1..]
    else [s[0]] + Erase(s[1..], p)
  }

  lemma {:induction false} InsertFacts(s: Cache, p: MemberPtr)
    requires IsSorted(s) && forall q :: q in s ==> q.since != p.since
    ensures IsSorted(Insert(s, p))
    ensures forall q :: q in Insert(s, p) <==> q in s || q == p
  {
    if s == [] || p.since < s[0].since {
      assert forall k :: 0 <= k < |s| ==> s[0].since <= s[k].since;
    } else {
      assert s[0] in s && s == [s[0]] + s[1..];
      InsertFacts(s[1..], p);
      var t := Insert(s[1..], p);
      forall k | 0 <= k < |t|
        ensures s[0].since < t[k].since
      {
        assert t[k] in t;
      }
    }
  }

  lemma {:induction false} EraseFacts(s: Cache, p: MemberPtr)
    requires IsSorted(s)
    ensures IsSorted(Erase(s, p))
    ensures forall q :: q in Erase(s, p) <==> q in s && q.since != p.since
  {
    if s != [] {
      assert s == [s[0]] + s[1..];
      if s[0].since == p.since {
        forall q | q in s[1..]
          ensures q.since != p.since
        {
        }
      } else {
        EraseFacts(s[1..], p);
        var t := Erase(s[1..], p);
        forall k | 0 <= k < |t|
          ensures s[0].since < t[k].since
        {
          assert t[k] in t && t[k] in s[1..];
        }
      }
    }
  }

  // ----- Caches of members -------------------------------------------------------------------------

  /** The cache holds exactly the members of its kind, in the order they joined. */
  ghost predicate IsCacheOf(s: Cache, ms: MemberMap, kind: Kind) {
    && IsSorted(s)
    && forall p :: p in s <==> p.id in ms && ms[p.id].since == p.since && Belongs(kind, ms[p.id])
  }

  function PtrTo(id: UserId, m: Member): MemberPtr {
    MemberPtr(id, m.since)
  }

  lemma SomeEntry(s: Cache)
    ensures s == [] || exists p :: p in s
  {
    if s != [] {
      assert s[0] in s;
    }
  }

  /** The order leaves no freedom: a kind of members has one cache. */
  lemma {:induction false} CacheIsUnique(s: Cache, t: Cache)
    requires IsSorted(s) && IsSorted(t) && forall p :: p in s <==> p in t
    ensures s == t
  {
    SomeEntry(s);
    SomeEntry(t);
    if s != [] {
      assert s[0] in t && t != [] && t[0] in s;
      assert s[0] == t[0];
      assert s == [s[0]] + s[1..] && t == [t[0]] + t[1..];
      forall p
        ensures p in s[1..] <==> p in t[1..]
      {
        assert p in s[1..] <==> p in s && p != s[0];
        assert p in t[1..] <==> p in t && p != t[0];
      }
      CacheIsUnique(s[1..], t[1..]);
    }
  }

  /** The ids a sequence of pointers names. */
  ghost function IdSet(s: Cache): set<UserId> {
    if s == [] then {} else IdSet(s[..|s| - 1]) + {s[|s| - 1].id}
  }

  lemma IdSetNext(s: Cache, k: nat)
    requires k < |s|
    ensures IdSet(s[..k + 1]) == IdSet(s[..k]) + {s[k].id}
  {
    assert s[..k + 1][..k] == s[..k];
  }

  lemma {:induction false} IdSetHas(s: Cache, n: nat, k: nat)
    requires k < n <= |s|
    ensures s[k].id in IdSet(s[..n])
  {
    IdSetNext(s, n - 1);
    if k < n - 1 {
      IdSetHas(s, n - 1, k);
    }
  }

  lemma {:induction false} IdSetIndex(s: Cache, n: nat, id: UserId) returns (k: nat)
    requires n <= |s| && id in IdSet(s[..n])
    ensures k < n && s[k].id == id
  {
    IdSetNext(s, n - 1);
    if s[n - 1].id == id {
      k := n - 1;
    } else {
      k := IdSetIndex(s, n - 1, id);
    }
  }

  /** The list holds exactly the members of a group, in the order they joined. */
  ghost predicate IsListOf(s: Cache, ms: MemberMap, group: set<UserId>) {
    && IsSorted(s)
    && (forall k :: 0 <= k < |s| ==> IsEntry(ms, group, s[k]))
    && forall id :: id in group ==> id in ms && PtrTo(id, ms[id]) in s
  }

  ghost predicate IsEntry(ms: MemberMap, group: set<UserId>, p: MemberPtr) {
    p.id in group && p.id in ms && ms[p.id].since == p.since
  }

  lemma CacheIsList(s: Cache, ms: MemberMap, kind: Kind)
    requires IsCacheOf(s, ms, kind)
    ensures IsListOf(s, ms, IdsOf(ms, kind))
  {
  }

  /** Whether a member of the group is among the first n entries can be told by when they joined. */
  lemma PrefixByTime(s: Cache, ms: MemberMap, group: set<UserId>, n: nat, id: UserId)
    requires IsListOf(s, ms, group) && n < |s|
    ensures id in IdSet(s[..n]) <==> id in group && ms[id].since < s[n].since
  {
    if id in IdSet(s[..n]) {
      var k := IdSetIndex(s, n, id);
      assert IsEntry(ms, group, s[k]);
    }
    if id in group && ms[id].since < s[n].since {
      var k :| 0 <= k < |s| && s[k] == PtrTo(id, ms[id]);
      assert k < n;
      IdSetHas(s, n, k);
    }
  }

  lemma {:induction false} PrefixSize(s: Cache, ms: MemberMap, group: set<UserId>, n: nat)
    requires IsListOf(s, ms, group) && n <= |s|
    ensures |IdSet(s[..n])| == n
  {
    if n > 0 {
      PrefixSize(s, ms, group, n - 1);
      IdSetNext(s, n - 1);
      PrefixByTime(s, ms, group, n - 1, s[n - 1].id);
      assert IsEntry(ms, group, s[n - 1]);
    }
  }

  /** A list names its group, and is as long as the group is large. */
  lemma ListSize(s: Cache, ms: MemberMap, group: set<UserId>)
    requires IsListOf(s, ms, group)
    ensures IdSet(s) == group && |s| == |group|
  {
    assert s[..|s|] == s;
    PrefixSize(s, ms, group, |s|);
    forall id
      ensures id in IdSet(s) <==> id in group
    {
      if id in group {
        var k :| 0 <= k < |s| && s[k] == PtrTo(id, ms[id]);
        IdSetHas(s, |s|, k);
      }
      if id in IdSet(s) {
        var k := IdSetIndex(s, |s|, id);
        assert IsEntry(ms, group, s[k]);
      }
    }
  }

  // ----- The caches of a room ----------------------------------------------------------------------

  datatype Caches = Caches(users: Cache, usersAsSpectators: Cache, players: Cache, spectators: Cache, disqualified: int)

  /** What the five fields must say about the members. */
  ghost predicate Agree(c: Caches, ms: MemberMap) {
    && DistinctTimes(ms)
    && IsCacheOf(c.users, ms, Users)
    && IsCacheOf(c.usersAsSpectators, ms, Users)
    && IsCacheOf(c.players, ms, ActivePlayers)
    && IsCacheOf(c.spectators, ms, Watchers)
    && c.disqualified == |DisqualifiedIds(ms)|
  }

  /** Which members that puts into which cache. */
  lemma CachesByStatus(c: Caches, ms: MemberMap, p: MemberPtr)
    requires Agree(c, ms)
    ensures p in c.users <==> p in c.usersAsSpectators
    ensures p in c.users <==> p.id in ms && ms[p.id].since == p.since
    ensures p in c.players <==> p in c.users && ms[p.id].status == Player && !ms[p.id].disqualified
    ensures p in c.spectators <==> p in c.users && !(ms[p.id].status == Player && !ms[p.id].disqualified)
    ensures c.disqualified == |set id | id in ms && ms[id].disqualified|
  {
    assert DisqualifiedIds(ms) == set id | id in ms && ms[id].disqualified;
  }

  /** The members determine the caches and the counter. */
  lemma AgreementIsUnique(c: Caches, d: Caches, ms: MemberMap)
    requires Agree(c, ms) && Agree(d, ms)
    ensures c == d
  {
    CacheIsUnique(c.users, d.users);
    CacheIsUnique(c.usersAsSpectators, d.usersAsSpectators);
    CacheIsUnique(c.players, d.players);
    CacheIsUnique(c.spectators, d.spectators);
  }

  function Removed(c: Caches, id: UserId, m: Member): Caches {
    var p := PtrTo(id, m);
    Caches(
      Erase(c.users, p),
      Erase(c.usersAsSpectators, p),
      if Belongs(ActivePlayers, m) then Erase(c.players, p) else c.players,
      if Belongs(Watchers, m) then Erase(c.spectators, p) else c.spectators,
      if m.IsDisqualified() then c.disqualified - 1 else c.disqualified)
  }

  function Added(c: Caches, id: UserId, m: Member): Caches {
    var p := PtrTo(id, m);
    Caches(
      Insert(c.users, p),
      Insert(c.usersAsSpectators, p),
      if Belongs(ActivePlayers, m) then Insert(c.players, p) else c.players,
      if Belongs(Watchers, m) then Insert(c.spectators, p) else c.spectators,
      if m.IsDisqualified() then c.disqualified + 1 else c.disqualified)
  }

  lemma RemoveFromCache(s: Cache, ms: MemberMap, kind: Kind, id: UserId)
    requires DistinctTimes(ms) && IsCacheOf(s, ms, kind) && id in ms
    ensures IsCacheOf(if Belongs(kind, ms[id]) then Erase(s, PtrTo(id, ms[id])) else s, ms - {id}, kind)
  {
    EraseFacts(s, PtrTo(id, ms[id]));
  }

  lemma AddToCache(s: Cache, ms: MemberMap, kind: Kind, id: UserId, m: Member)
    requires id !in ms && DistinctTimes(ms[id := m]) && IsCacheOf(s, ms, kind)
    ensures IsCacheOf(if Belongs(kind, m) then Insert(s, PtrTo(id, m)) else s, ms[id := m], kind)
  {
    forall q | q in s
      ensures q.since != m.since
    {
      assert q.id != id && ms[id := m][q.id].since != ms[id := m][id].since;
    }
    InsertFacts(s, PtrTo(id, m));
  }

  /** Taking a member out of the caches makes them agree with the members without it. */
  lemma RemovedAgrees(c: Caches, ms: MemberMap, id: UserId)
    requires Agree(c, ms) && id in ms
    ensures Agree(Removed(c, id, ms[id]), ms - {id})
  {
    hide Insert, Erase, IsCacheOf, DisqualifiedIds;
    RemoveFromCache(c.users, ms, Users, id);
    RemoveFromCache(c.usersAsSpectators, ms, Users, id);
    RemoveFromCache(c.players, ms, ActivePlayers, id);
    RemoveFromCache(c.spectators, ms, Watchers, id);
    assert (ms - {id})[id := ms[id]] == ms;
    OneMoreDisqualified(ms - {id}, id, ms[id]);
  }

  /** Putting a member into the caches makes them agree with the members with it. */
  lemma AddedAgrees(c: Caches, ms: MemberMap, id: UserId, m: Member)
    requires Agree(c, ms) && id !in ms && DistinctTimes(ms[id := m])
    ensures Agree(Added(c, id, m), ms[id := m])
  {
    hide Insert, Erase, IsCacheOf, DisqualifiedIds;
    AddToCache(c.users, ms, Users, id, m);
    AddToCache(c.usersAsSpectators, ms, Users, id, m);
    AddToCache(c.players, ms, ActivePlayers, id, m);
    AddToCache(c.spectators, ms, Watchers, id, m);
    OneMoreDisqualified(ms, id, m);
  }

  lemma OneMoreDisqualified(ms: MemberMap, id: UserId, m: Member)
    requires id !in ms
    ensures |DisqualifiedIds(ms[id := m])| == |DisqualifiedIds(ms)| + (if m.IsDisqualified() then 1 else 0)
  {
    assert DisqualifiedIds(ms[id := m]) == DisqualifiedIds(ms) + (if m.IsDisqualified() then {id} else {});
  }

  /** A guarded change of a member, out of the caches and back in, keeps them in agreement. */
  lemma GuardedChangeAgrees(c: Caches, ms: MemberMap, id: UserId, m: Member)
    requires Agree(c, ms) && id in ms && m.since == ms[id].since
    ensures Agree(Added(Removed(c, id, ms[id]), id, m), ms[id := m])
  {
    RemovedAgrees(c, ms, id);
    assert (ms - {id})[id := m] == ms[id := m];
    AddedAgrees(Removed(c, id, ms[id]), ms - {id}, id, m);
  }
}
