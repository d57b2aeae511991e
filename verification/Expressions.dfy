module Wrappers {
  datatype Option<+T> = None | Some(value: T)
}

/**
 Nested-map values and the paths into them: module/game_spec/include/Expression.h:21-36 and
 module/game_spec/src/ExpressionPtr.cpp:30-65.
 */
module Expressions {
  import opened Wrappers

  type Entries = map<string, Expression>

  datatype Expression =
    | ExpMap(entries: Entries)
    | ExpList(list: seq<Expression>)
    | ExpInt(i: int)
    | ExpBool(b: bool)
    | ExpString(str: string)

  // ----- Paths -------------------------------------------------------------------------------------

  /** The expression a path names, walking through nested maps only. */
  ghost function Resolve(path: seq<string>, m: Entries): Option<Expression>
    decreases |path|
  {
    if |path| == 0 || path[0] !in m then None
    else if |path| == 1 then Some(m[path[0]])
    else if m[path[0]].ExpMap? then Resolve(path[1..], m[path[0]].entries)
    else None
  }

  /** The map in which the expression a path names has been replaced. */
  ghost function Overwrite(path: seq<string>, v: Expression, m: Entries): Entries
    requires Resolve(path, m).Some?
    decreases |path|
  {
    if |path| == 1 then m[path[0] := v]
    else m[path[0] := ExpMap(Overwrite(path[1..], v, m[path[0]].entries))]
  }

  ghost predicate Diverges(p: seq<string>, q: seq<string>) {
    !(p <= q) && !(q <= p)
  }

  datatype ExpressionPtr = ExpressionPtr(indices: seq<string>) {

    /** The expression the indices lead to; nothing when a key is missing or leads to no map. */
    method GetPtr(m: Entries) returns (res: Option<Expression>)
      ensures res == Resolve(indices, m)
    {
      var exp := m;
      for k := 0 to |indices|
        invariant Resolve(indices, m) == Resolve(indices[k..], exp)
      {
        var ind := indices[k];
        assert indices[k..][1..] == indices[k + 1..];
        if ind !in exp {
          return None;
        }
        var temp := exp[ind];
        if k == |indices| - 1 {
          return Some(temp);
        }
        if !temp.ExpMap? {
          return None;
        }
        exp := temp.entries;
      }
      return None;
    }

    /** Replaces what the indices lead to; None stands for the exception on an invalid name. */
    method Store(exp: Expression, m: Entries) returns (res: Option<Entries>)
      ensures res == if Resolve(indices, m).Some? then Some(Overwrite(indices, exp, m)) else None
    {
      var ptr := GetPtr(m);
      if ptr.None? {
        return None;
      }
      var written := Assign(0, exp, m);
      return Some(written);
    }

    /** The assignment through the pointer, carried out in the map that indices[k..] starts from. */
    method Assign(k: nat, exp: Expression, m: Entries) returns (res: Entries)
      requires k < |indices| && Resolve(indices[k..], m).Some?
      ensures res == Overwrite(indices[k..], exp, m)
      decreases |indices| - k
    {
      if k == |indices| - 1 {
        return m[indices[k] := exp];
      }
      assert indices[k..][1..] == indices[k + 1..];
      var inner := Assign(k + 1, exp, m[indices[k]].entries);
      return m[indices[k] := ExpMap(inner)];
    }
  }

  // ----- What a path names -------------------------------------------------------------------------

  /** The maps a path leads through: each key is found, and all but the last lead to the next map. */
  ghost predicate IsWalk(path: seq<string>, m: Entries, maps: seq<Entries>, v: Expression) {
    && |maps| == |path| > 0 && maps[0] == m
    && (forall k :: 0 <= k < |path| ==> path[k] in maps[k])
    && (forall k :: 0 <= k < |path| - 1 ==> maps[k][path[k]] == ExpMap(maps[k + 1]))
    && maps[|path| - 1][path[|path| - 1]] == v
  }

  /** A path names a value exactly if it leads to it through nested maps, key by key. */
  lemma ResolveByWalk(path: seq<string>, m: Entries, v: Expression)
    ensures Resolve(path, m) == Some(v) <==> exists maps :: IsWalk(path, m, maps, v)
  {
    if Resolve(path, m) == Some(v) {
      var maps := WalkTo(path, m, v);
    }
    if maps :| IsWalk(path, m, maps, v) {
      WalkResolves(path, m, maps, v);
    }
  }

  lemma {:induction false} WalkTo(path: seq<string>, m: Entries, v: Expression) returns (maps: seq<Entries>)
    requires Resolve(path, m) == Some(v)
    ensures IsWalk(path, m, maps, v)
    decreases |path|
  {
    if |path| == 1 {
      maps := [m];
    } else {
      var rest := WalkTo(path[1..], m[path[0]].entries, v);
      maps := [m] + rest;
      assert forall k :: 0 <= k < |path[1..]| ==> path[1..][k] == path[k + 1] && rest[k] == maps[k + 1];
      forall k | 0 <= k < |path|
        ensures path[k] in maps[k]
        ensures k < |path| - 1 ==> maps[k][path[k]] == ExpMap(maps[k + 1])
      {
        if k > 0 {
          assert path[1..][k - 1] in rest[k - 1];
        }
      }
    }
  }

  lemma {:induction false} WalkResolves(path: seq<string>, m: Entries, maps: seq<Entries>, v: Expression)
    requires IsWalk(path, m, maps, v)
    ensures Resolve(path, m) == Some(v)
    decreases |path|
  {
    if |path| > 1 {
      assert m[path[0]] == ExpMap(maps[1]);
      WalkResolves(path[1..], maps[1], maps[1..], v);
    }
  }

  // ----- What a store changes ----------------------------------------------------------------------

  /** A store is read back by its own path. */
  lemma {:induction false} StoreThenGet(p: seq<string>, v: Expression, m: Entries)
    requires Resolve(p, m).Some?
    ensures Resolve(p, Overwrite(p, v, m)) == Some(v)
    decreases |p|
  {
    if |p| > 1 {
      StoreThenGet(p[1..], v, m[p[0]].entries);
    }
  }

  /** Storing back what was read changes nothing. */
  lemma {:induction false} StoreReadBack(p: seq<string>, m: Entries)
    requires Resolve(p, m).Some?
    ensures Overwrite(p, Resolve(p, m).value, m) == m
    decreases |p|
  {
    if |p| > 1 {
      StoreReadBack(p[1..], m[p[0]].entries);
    }
  }

  /** Of two stores to one path the second wins. */
  lemma {:induction false} StoreTwice(p: seq<string>, v: Expression, w: Expression, m: Entries)
    requires Resolve(p, m).Some?
    ensures Resolve(p, Overwrite(p, v, m)).Some?
    ensures Overwrite(p, w, Overwrite(p, v, m)) == Overwrite(p, w, m)
    decreases |p|
  {
    if |p| > 1 {
      StoreTwice(p[1..], v, w, m[p[0]].entries);
    }
  }

  /** A path that diverges from the stored one resolves as before, at any depth. */
  lemma {:induction false} StoreElsewhere(p: seq<string>, q: seq<string>, v: Expression, m: Entries)
    requires Resolve(p, m).Some? && Diverges(p, q)
    ensures Resolve(q, Overwrite(p, v, m)) == Resolve(q, m)
    decreases |p|
  {
    if p[0] == q[0] {
      assert p == [p[0]] + p[1..] && q == [q[0]] + q[1..];
      if |p| > 1 && |q| > 1 {
        StoreElsewhere(p[1..], q[1..], v, m[p[0]].entries);
      }
    }
  }

  /** A path that goes on below the stored one is resolved inside the stored value. */
  lemma {:induction false} StoreAbove(p: seq<string>, rest: seq<string>, v: Expression, m: Entries)
    requires Resolve(p, m).Some? && rest != []
    ensures Resolve(p + rest, Overwrite(p, v, m)) == if v.ExpMap? then Resolve(rest, v.entries) else None
    decreases |p|
  {
    assert (p + rest)[1..] == p[1..] + rest;
    if |p| > 1 {
      StoreAbove(p[1..], rest, v, m[p[0]].entries);
    } else {
      assert p[1..] + rest == rest;
    }
  }

  /** A path that stops short of the stored one names the map the store was carried out in. */
  lemma {:induction false} StoreBelow(p: seq<string>, rest: seq<string>, v: Expression, m: Entries)
    requires p != [] && rest != [] && Resolve(p + rest, m).Some?
    ensures Resolve(p, m).Some? && Resolve(p, m).value.ExpMap?
    ensures var inner := Resolve(p, m).value.entries;
            && Resolve(rest, inner).Some?
            && Resolve(p, Overwrite(p + rest, v, m)) == Some(ExpMap(Overwrite(rest, v, inner)))
    decreases |p|
  {
    assert (p + rest)[1..] == p[1..] + rest;
    if |p| > 1 {
      StoreBelow(p[1..], rest, v, m[p[0]].entries);
    } else {
      assert p[1..] + rest == rest;
    }
  }
}
