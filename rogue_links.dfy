// Room connectivity of the roguelike's cave generators: `rci[a][b]` says
// rooms a and b are joined by a corridor, `mci[a]` that room a is known to
// be connected to the main room. `update_main_connections` (dungeon.c) and
// `cave_t::update_main_room_connections` (cave.cpp) are the same recursive
// marking; dungeon.c keeps the flags as 0/1 ints, cave.cpp as bools, and
// both are bools here.
module RogueLinks {
  /** The number of unmarked rooms, which every call that marks one lowers. */
  function Unmarked(s: seq<bool>): (n: nat)
    ensures n <= |s|
  {
    if s == [] then 0 else Unmarked(s[..|s| - 1]) + (if s[|s| - 1] then 0 else 1)
  }

  /** Marking more rooms never raises the count, and marking a new one lowers it. */
  lemma {:induction false} UnmarkedMono(s: seq<bool>, t: seq<bool>, i: int)
    requires |s| == |t| && forall k :: 0 <= k < |s| && s[k] ==> t[k]
    ensures Unmarked(t) <= Unmarked(s)
    ensures 0 <= i < |s| && !s[i] && t[i] ==> Unmarked(t) < Unmarked(s)
    decreases |s|
  {
    if s != [] {
      UnmarkedMono(s[..|s| - 1], t[..|t| - 1], i);
    }
  }

  /** Corridors run both ways. */
  ghost predicate Symmetric(rci: array2<bool>)
    reads rci
  {
    forall a, b :: 0 <= a < rci.Length0 && 0 <= b < rci.Length1 && rci[a, b] ==> b < rci.Length0 && a < rci.Length1 && rci[b, a]
  }

  /** Room `order[k]` is joined to an earlier room of `order`. */
  ghost predicate LinkedEarlier(rci: array2<bool>, order: seq<int>, k: int)
    requires 0 <= k < |order|
    reads rci
  {
    exists l :: 0 <= l < k && Joined(rci, order[l], order[k])
  }

  /** The rooms in the order a marking reached them: each once, each after the first joined to an earlier one. */
  ghost predicate Reached(rci: array2<bool>, order: seq<int>)
    reads rci
  {
    (forall k, l :: 0 <= k < l < |order| ==> order[k] != order[l]) &&
    (forall k :: 0 < k < |order| ==> LinkedEarlier(rci, order, k))
  }

  /** Rooms reached from i, itself joined to the first room of `order`, extend `order`. */
  lemma ReachedAppend(rci: array2<bool>, order: seq<int>, sub: seq<int>, i: int)
    requires Reached(rci, order) && Reached(rci, sub) && 0 < |order|
    requires sub == [] || (sub[0] == i && Joined(rci, order[0], i))
    requires forall k :: 0 <= k < |sub| ==> sub[k] !in order
    ensures Reached(rci, order + sub)
  {
    var next := order + sub;
    forall k | 0 < k < |next|
      ensures LinkedEarlier(rci, next, k)
    {
      if k < |order| {
        assert LinkedEarlier(rci, order, k);
        var l :| 0 <= l < k && Joined(rci, order[l], order[k]);
        assert next[l] == order[l] && next[k] == order[k];
      } else if k == |order| {
        assert next[0] == order[0] && next[k] == i;
      } else {
        assert LinkedEarlier(rci, sub, k - |order|);
        var l :| 0 <= l < k - |order| && Joined(rci, sub[l], sub[k - |order|]);
        assert next[l + |order|] == sub[l] && next[k] == sub[k - |order|];
      }
    }
    forall a, b | 0 <= a < b < |next|
      ensures next[a] != next[b]
    {
      if a < |order| && b >= |order| {
        assert next[b] == sub[b - |order|];
      }
    }
  }

  /**
   * `update_main_connections(r, rci, mci, n_rooms)` (dungeon.c:299-306)
   * and `update_main_room_connections(r, rci, mci)` (cave.cpp:187-194),
   * with `n` the room count: if room r is unmarked, mark it and every room
   * joined to it. Marks are only added; r ends marked; every room this
   * call marks has all the rooms joined to it marked. `order` lists the
   * rooms it marked, r first, each joined to an earlier one.
   */
  method UpdateMainConnections(r: int, rci: array2<bool>, mci: array<bool>, n: int) returns (ghost order: seq<int>)
    requires 0 <= r < n && mci.Length == n && rci.Length0 == n && rci.Length1 == n
    modifies mci
    ensures forall i :: 0 <= i < n && old(mci[i]) ==> mci[i]
    ensures mci[r]
    ensures forall i, j :: 0 <= i < n && 0 <= j < n && !old(mci[i]) && mci[i] && j != i && rci[i, j] ==> mci[j]
    ensures forall i :: 0 <= i < n && !old(mci[i]) && mci[i] ==> i in order
    ensures forall k :: 0 <= k < |order| ==> 0 <= order[k] < n && !old(mci[order[k]]) && mci[order[k]]
    ensures Reached(rci, order) && (order == [] || order[0] == r)
    decreases Unmarked(mci[..])
  {
    order := [];
    if !mci[r] {
      ghost var entry := mci[..];
      mci[r] := true;
      order := [r];
      var i := 0;
      while i < n
        invariant 0 <= i <= n && mci[r]
        invariant forall k :: 0 <= k < n && entry[k] ==> mci[k]
        invariant forall k, j :: 0 <= k < n && 0 <= j < n && k != r && !entry[k] && mci[k] && j != k && rci[k, j] ==> mci[j]
        invariant forall j :: 0 <= j < i && j != r && rci[r, j] ==> mci[j]
        invariant forall k :: 0 <= k < n && !entry[k] && mci[k] ==> k in order
        invariant forall k :: 0 <= k < |order| ==> 0 <= order[k] < n && !entry[order[k]] && mci[order[k]]
        invariant Reached(rci, order) && order[0] == r
      {
        if i != r && rci[r, i] {
          ghost var before := mci[..];
          UnmarkedMono(entry, before, r);
          var sub := UpdateMainConnections(i, rci, mci, n);
          forall k | 0 <= k < |sub|
            ensures sub[k] !in order
          {
            assert !before[sub[k]];
          }
          ReachedAppend(rci, order, sub, i);
          order := order + sub;
        }
        i := i + 1;
      }
    }
  }

  /** A corridor from room a to a different room b. */
  ghost predicate Joined(rci: array2<bool>, a: int, b: int)
    reads rci
  {
    0 <= a < rci.Length0 && 0 <= b < rci.Length1 && a != b && rci[a, b]
  }

  /** A walk along corridors, each step to a different room. */
  ghost predicate Walk(rci: array2<bool>, p: seq<int>)
    reads rci
  {
    forall k :: 0 < k < |p| ==> Joined(rci, p[k - 1], p[k])
  }

  /**
   * Completeness: with the marks `was` before the call and `now` after it,
   * a walk from r through rooms unmarked before ends at a marked room.
   */
  lemma {:induction false} WalkMarked(rci: array2<bool>, was: seq<bool>, now: seq<bool>, r: int, p: seq<int>)
    requires |was| == |now| == rci.Length0 == rci.Length1
    requires 0 <= r < |now| && now[r]
    requires forall i, j :: 0 <= i < |now| && 0 <= j < |now| && !was[i] && now[i] && j != i && rci[i, j] ==> now[j]
    requires 0 < |p| && p[0] == r && Walk(rci, p)
    requires forall k :: 0 <= k < |p| ==> 0 <= p[k] < |was| && !was[p[k]]
    ensures now[p[|p| - 1]]
  {
    if |p| > 1 {
      WalkMarked(rci, was, now, r, p[..|p| - 1]);
      assert Joined(rci, p[|p| - 2], p[|p| - 1]);
    }
  }

  /** Soundness: each room a marking reached has a walk to it from the first, through rooms it reached. */
  lemma {:induction false} ReachedWalk(rci: array2<bool>, order: seq<int>, k: int) returns (p: seq<int>)
    requires Reached(rci, order) && 0 <= k < |order|
    ensures 0 < |p| && p[0] == order[0] && p[|p| - 1] == order[k] && Walk(rci, p)
    ensures forall i :: 0 <= i < |p| ==> p[i] in order
    decreases k
  {
    if k == 0 {
      p := [order[0]];
    } else {
      assert LinkedEarlier(rci, order, k);
      var l :| 0 <= l < k && Joined(rci, order[l], order[k]);
      var q := ReachedWalk(rci, order, l);
      p := q + [order[k]];
    }
  }

  /** Every corridor out of a marked room leads to a marked room. */
  ghost predicate MarksClosed(rci: array2<bool>, mci: array<bool>)
    reads rci, mci
  {
    forall a, b :: 0 <= a < mci.Length && 0 <= b < mci.Length && a < rci.Length0 && b < rci.Length1 && mci[a] && rci[a, b] ==> mci[b]
  }
}
