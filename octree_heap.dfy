// The indexed binary min-heap of octree nodes that `hal_quantize` in
// src/graphics.c uses to pick the next leaf to fold. The heap buffer holds
// pointers into the node pool; here a pointer is the node's index in the
// pool, `Null` is the null pointer, and the two node fields the heap code
// writes (`heap_idx` and `flags`) are kept per node beside the pool.
module OctreeHeap {
  /** The fields of an `oct_node_t` that `cmp_node` reads. */
  datatype OctNode = OctNode(nKids: int, count: int, depth: nat)

  const Null: int := -1

  function Pow2(k: nat): (r: int)
    ensures r >= 1
  {
    if k == 0 then 1 else 2 * Pow2(k - 1)
  }

  /** `count >> depth`: the arithmetic shift is floor division by 2^depth. */
  function Level(a: OctNode): int {
    a.count / Pow2(a.depth)
  }

  /** `cmp_node` (src/graphics.c:413-422): leaves with fewer kids first, then by `count >> depth`. */
  function Cmp(a: OctNode, b: OctNode): (r: int)
    ensures r == -1 <==> a.nKids < b.nKids || (a.nKids == b.nKids && Level(a) < Level(b))
    ensures r == 0 <==> a.nKids == b.nKids && Level(a) == Level(b)
    ensures r == 1 <==> a.nKids > b.nKids || (a.nKids == b.nKids && Level(a) > Level(b))
  {
    if a.nKids < b.nKids then -1
    else if a.nKids > b.nKids then 1
    else
      var ac := Level(a);
      var bc := Level(b);
      if ac < bc then -1 else if ac > bc then 1 else 0
  }

  predicate Le(a: OctNode, b: OctNode) { Cmp(a, b) <= 0 }

  /** Swapping the arguments negates the comparison. */
  lemma CmpAntisymmetric(a: OctNode, b: OctNode)
    ensures Cmp(a, b) == -Cmp(b, a)
  {
  }

  /** `cmp_node(a, b) <= 0` is a total preorder, so a heap ordered by it has a least element at the root. */
  lemma LeTransitive(a: OctNode, b: OctNode, c: OctNode)
    requires Le(a, b) && Le(b, c)
    ensures Le(a, c)
  {
  }

  lemma LeTotal(a: OctNode, b: OctNode)
    ensures Le(a, b) || Le(b, a)
  {
  }

  /** Every heap slot 1 .. n-1 points into the pool. */
  ghost predicate InPool(pool: seq<OctNode>, buf: seq<int>, n: int) {
    n <= |buf| && forall i :: 1 <= i < n ==> 0 <= buf[i] < |pool|
  }

  /** The pair (i / 2, i) is in heap order. */
  ghost predicate Ordered(pool: seq<OctNode>, buf: seq<int>, i: int)
    requires 2 <= i < |buf| && 0 <= buf[i] < |pool| && 0 <= buf[i / 2] < |pool|
  {
    Le(pool[buf[i / 2]], pool[buf[i]])
  }

  /** Heap order on slots 1 .. n-1, slot 0 unused. */
  ghost predicate HeapOrdered(pool: seq<OctNode>, buf: seq<int>, n: int)
    requires InPool(pool, buf, n)
  {
    forall i :: 2 <= i < n ==> Ordered(pool, buf, i)
  }

  /** The root of an ordered heap is no greater than any node in it. */
  lemma {:induction false} HeapMin(pool: seq<OctNode>, buf: seq<int>, n: int, i: int)
    requires InPool(pool, buf, n) && HeapOrdered(pool, buf, n) && 1 <= i < n
    ensures Le(pool[buf[1]], pool[buf[i]])
    decreases i
  {
    if i > 1 {
      HeapMin(pool, buf, n, i / 2);
      assert Ordered(pool, buf, i);
      LeTransitive(pool[buf[1]], pool[buf[i / 2]], pool[buf[i]]);
    }
  }

  /** `buf[i]->heap_idx == i` for every slot except the hole `j`. */
  ghost predicate IndexedExcept(heapIdx: seq<int>, buf: seq<int>, n: int, j: int)
    requires n <= |buf| && forall i :: 1 <= i < n ==> 0 <= buf[i] < |heapIdx|
  {
    forall i :: 1 <= i < n && i != j ==> heapIdx[buf[i]] == i
  }

  /**
   * The state `down_heap` works in, with `p` logically at the hole `j`: every
   * pair away from the hole is ordered, and the hole's parent is no greater
   * than the hole's children.
   */
  ghost predicate DownReady(pool: seq<OctNode>, buf: seq<int>, n: int, j: int)
    requires InPool(pool, buf, n) && 1 <= j < n
  {
    (forall i :: 2 <= i < n && i != j && i / 2 != j ==> Ordered(pool, buf, i)) &&
    (j >= 2 ==> forall i :: 2 <= i < n && i / 2 == j ==> Le(pool[buf[j / 2]], pool[buf[i]]))
  }

  /** The state `up_heap` works in: only the pair (j / 2, j) may be out of order. */
  ghost predicate UpReady(pool: seq<OctNode>, buf: seq<int>, n: int, j: int)
    requires InPool(pool, buf, n) && 1 <= j < n
  {
    (forall i :: 2 <= i < n && i != j ==> Ordered(pool, buf, i)) &&
    (j >= 2 ==> forall i :: 2 <= i < n && i / 2 == j ==> Le(pool[buf[j / 2]], pool[buf[i]]))
  }

  /** An ordered heap is ready for either sift at any slot. */
  lemma OrderedIsReady(pool: seq<OctNode>, buf: seq<int>, n: int, j: int)
    requires InPool(pool, buf, n) && HeapOrdered(pool, buf, n) && 1 <= j < n
    ensures DownReady(pool, buf, n, j) && UpReady(pool, buf, n, j)
  {
    if j >= 2 {
      forall i | 2 <= i < n && i / 2 == j
        ensures Le(pool[buf[j / 2]], pool[buf[i]])
      {
        assert Ordered(pool, buf, j) && Ordered(pool, buf, i);
        LeTransitive(pool[buf[j / 2]], pool[buf[j]], pool[buf[i]]);
      }
    }
  }

  lemma SwapMultiset(s: seq<int>, i: int, j: int, lo: int, hi: int)
    requires 0 <= lo <= i < hi <= |s| && lo <= j < hi
    ensures multiset(s[i := s[j]][j := s[i]][lo..hi]) == multiset(s[lo..hi])
  {
    var t := s[i := s[j]][j := s[i]];
    assert t[lo..hi] == s[lo..hi][i - lo := s[j]][j - lo := s[i]];
    var u := s[lo..hi];
    assert multiset(u[i - lo := s[j]]) == multiset(u) - multiset{u[i - lo]} + multiset{s[j]};
  }

  /** The child `down_heap` picks is no greater than either child of `j`. */
  lemma SmallerChild(pool: seq<OctNode>, buf: seq<int>, n: int, j: int, m: int)
    requires InPool(pool, buf, n) && 1 <= j && j * 2 <= m <= j * 2 + 1 && m < n
    requires m == j * 2 + 1 ==> Cmp(pool[buf[j * 2]], pool[buf[m]]) > 0
    requires m == j * 2 && m + 1 < n ==> Cmp(pool[buf[m]], pool[buf[m + 1]]) <= 0
    ensures forall i :: 2 <= i < n && i / 2 == j ==> Le(pool[buf[m]], pool[buf[i]])
  {
    LeTotal(pool[buf[j * 2]], pool[buf[m]]);
  }

  /** A node no greater than the smaller child is no greater than both. */
  lemma AboveChildren(pool: seq<OctNode>, buf: seq<int>, n: int, j: int, m: int, v: OctNode)
    requires InPool(pool, buf, n) && 1 <= j && 0 <= m < n && 0 <= buf[m] < |pool|
    requires forall i :: 2 <= i < n && i / 2 == j ==> Le(pool[buf[m]], pool[buf[i]])
    requires Le(v, pool[buf[m]])
    ensures forall i :: 2 <= i < n && i / 2 == j ==> Le(v, pool[buf[i]])
  {
    forall i | 2 <= i < n && i / 2 == j
      ensures Le(v, pool[buf[i]])
    {
      LeTransitive(v, pool[buf[m]], pool[buf[i]]);
    }
  }

  /** Moving the smaller child `m` up into the hole `j` moves the hole to `m`. */
  lemma DownSwapOrder(pool: seq<OctNode>, a: seq<int>, n: int, j: int, m: int, p: int)
    requires InPool(pool, a, n) && 1 <= j < n && a[j] == p && DownReady(pool, a, n, j)
    requires j * 2 <= m <= j * 2 + 1 && m < n
    requires forall i :: 2 <= i < n && i / 2 == j ==> Le(pool[a[m]], pool[a[i]])
    requires !Le(pool[p], pool[a[m]])
    ensures var b := a[j := a[m]][m := p];
      InPool(pool, b, n) && DownReady(pool, b, n, m) && Le(pool[b[m / 2]], pool[p])
  {
    var q := a[m];
    var b := a[j := q][m := p];
    assert m / 2 == j;
    LeTotal(pool[p], pool[q]);
    forall i | 2 <= i < n && i != m && i / 2 != m
      ensures Ordered(pool, b, i)
    {
      if i == j {
        assert Le(pool[a[j / 2]], pool[q]);
      } else if i / 2 == j {
        assert Le(pool[q], pool[a[i]]);
      } else {
        assert Ordered(pool, a, i);
      }
    }
    forall i | 2 <= i < n && i / 2 == m
      ensures Le(pool[b[m / 2]], pool[b[i]])
    {
      assert Ordered(pool, a, i);
    }
  }

  /** Moving the greater parent down into the hole `j` moves the hole to `j / 2`. */
  lemma UpSwapOrder(pool: seq<OctNode>, a: seq<int>, n: int, j: int, p: int)
    requires InPool(pool, a, n) && 2 <= j < n && a[j] == p && UpReady(pool, a, n, j)
    requires !Le(pool[a[j / 2]], pool[p])
    ensures var b := a[j := a[j / 2]][j / 2 := p];
      InPool(pool, b, n) && UpReady(pool, b, n, j / 2)
  {
    var h := j / 2;
    var prev := a[h];
    var b := a[j := prev][h := p];
    LeTotal(pool[p], pool[prev]);
    forall i | 2 <= i < n && i != h
      ensures Ordered(pool, b, i)
    {
      if i == j {
      } else if i / 2 == j {
        assert Le(pool[prev], pool[a[i]]);
      } else if i / 2 == h {
        assert Ordered(pool, a, i);
        LeTransitive(pool[p], pool[prev], pool[b[i]]);
      } else {
        assert Ordered(pool, a, i);
      }
    }
    if h >= 2 {
      forall i | 2 <= i < n && i / 2 == h
        ensures Le(pool[b[h / 2]], pool[b[i]])
      {
        assert Ordered(pool, a, h);
        if i != j {
          assert Ordered(pool, a, i);
          LeTransitive(pool[b[h / 2]], pool[prev], pool[b[i]]);
        }
      }
    }
  }

  /** Moving the node at `m` into the hole `j` and `p` to `m` keeps every other slot indexed. */
  lemma HoleMove(heapIdx: seq<int>, a: seq<int>, n: int, j: int, m: int, p: int)
    requires n <= |a| && (forall i :: 1 <= i < n ==> 0 <= a[i] < |heapIdx|)
    requires 1 <= j < n && 1 <= m < n && j != m && a[j] == p
    requires IndexedExcept(heapIdx, a, n, j) && forall i :: 1 <= i < n && i != j ==> a[i] != p
    ensures var b := a[j := a[m]][m := p];
      (forall i :: 1 <= i < n ==> 0 <= b[i] < |heapIdx|) &&
      IndexedExcept(heapIdx[a[m] := j], b, n, m) && forall i :: 1 <= i < n && i != m ==> b[i] != p
  {
    var b := a[j := a[m]][m := p];
    forall i | 1 <= i < n && i != m
      ensures heapIdx[a[m] := j][b[i]] == i
    {
      if i != j {
        assert heapIdx[a[i]] == i && heapIdx[a[m]] == m;
      }
    }
  }

  /** The nodes held in slots 1 .. n-1. */
  ghost function Members(buf: seq<int>, n: int): multiset<int>
    requires n <= |buf|
  {
    if n <= 1 then multiset{} else multiset(buf[1..n])
  }

  /**
   * The capacity after `heap_add`'s growth loop
   * (src/graphics.c:473-477): `alloc` steps by 1024 until it exceeds `n`.
   */
  function Grown(alloc: int, n: int): (r: int)
    ensures r > n && r >= alloc
    decreases n - alloc
  {
    if n >= alloc then Grown(alloc + 1024, n) else alloc
  }

  /** The buffer grows by whole steps of 1024 slots, and by none it does not need. */
  lemma {:induction false} GrownSteps(alloc: int, n: int)
    ensures var r := Grown(alloc, n);
      (r - alloc) % 1024 == 0 && (r == alloc || r - 1024 <= n)
    decreases n - alloc
  {
    if n >= alloc {
      GrownSteps(alloc + 1024, n);
    }
  }

  /** Changing the key of the node at slot `k` of an ordered heap leaves it ready for `down_heap`. */
  lemma KeyChangeReady(pool: seq<OctNode>, buf: seq<int>, n: int, k: int, node: OctNode)
    requires InPool(pool, buf, n) && HeapOrdered(pool, buf, n) && 1 <= k < n
    requires forall i :: 1 <= i < n && i != k ==> buf[i] != buf[k]
    ensures InPool(pool[buf[k] := node], buf, n) && DownReady(pool[buf[k] := node], buf, n, k)
  {
    var q := pool[buf[k] := node];
    forall i | 2 <= i < n && i != k && i / 2 != k
      ensures Ordered(q, buf, i)
    {
      assert Ordered(pool, buf, i);
    }
    if k >= 2 {
      forall i | 2 <= i < n && i / 2 == k
        ensures Le(q[buf[k / 2]], q[buf[i]])
      {
        assert Ordered(pool, buf, k) && Ordered(pool, buf, i);
        LeTransitive(pool[buf[k / 2]], pool[buf[k]], pool[buf[i]]);
      }
    }
  }

  /**
   * Storing an unflagged node, with its new key and flag, in slot `m` just
   * past an ordered heap leaves it ready for `up_heap` there.
   */
  lemma AppendReady(pool: seq<OctNode>, heapIdx: seq<int>, flags: seq<int>, a: seq<int>, m: int, p: int, node: OctNode)
    requires |heapIdx| == |pool| && |flags| == |pool| && 1 <= m < |a|
    requires InPool(pool, a, m) && HeapOrdered(pool, a, m)
    requires IndexedExcept(heapIdx, a, m, 0) && AllFlagged(flags, a, m)
    requires 0 <= p < |pool| && !Flagged(flags[p])
    ensures var pool', flags', b := pool[p := node], flags[p := SetAdded(flags[p])], a[m := p];
      InPool(pool', b, m + 1) && UpReady(pool', b, m + 1, m) &&
      IndexedExcept(heapIdx[p := m], b, m + 1, 0) && AllFlagged(flags', b, m + 1)
  {
    NotInHeap(pool, a, m, flags, heapIdx, p, node);
    var pool', b := pool[p := node], a[m := p];
    forall i | 2 <= i < m + 1 && i != m
      ensures Ordered(pool', b, i)
    {
      assert Ordered(pool', a, i);
    }
  }

  /**
   * `heap_add` on a new node: in a buffer `c` that extends `buf` past slot
   * `m`, with the node stored, flagged and indexed at slot `m`, the heap is
   * ready for `up_heap` at `m` and holds one node more.
   */
  lemma StoreReady(pool: seq<OctNode>, heapIdx: seq<int>, flags: seq<int>, buf: seq<int>, n: int, a: int, p: int, node: OctNode, m: int)
    requires |heapIdx| == |pool| && |flags| == |pool| && 0 <= n <= |buf|
    requires InPool(pool, buf, n) && HeapOrdered(pool, buf, n)
    requires IndexedExcept(heapIdx, buf, n, 0) && AllFlagged(flags, buf, n)
    requires m == (if n == 0 then 1 else n) && a == Grown(|buf|, m)
    requires 0 <= p < |pool| && !Flagged(flags[p])
    ensures var pool', heapIdx', flags', b := pool[p := node], heapIdx[p := m], flags[p := SetAdded(flags[p])], Padded(buf, a)[m := p];
      InPool(pool', b, m + 1) && UpReady(pool', b, m + 1, m) &&
      IndexedExcept(heapIdx', b, m + 1, 0) && AllFlagged(flags', b, m + 1) &&
      Members(b, m + 1) == Members(buf, n) + multiset{p}
  {
    var c := Padded(buf, a);
    assert forall i :: 0 <= i < n ==> c[i] == buf[i];
    ExtendValid(pool, heapIdx, flags, buf, n, c);
    AppendReady(pool, heapIdx, flags, c, m, p, node);
    AppendMembers(c, m, p);
  }

  /** `buf` grown to `a` slots, the new ones null. */
  function Padded(buf: seq<int>, a: int): (c: seq<int>)
    requires |buf| <= a
    ensures |c| == a
  {
    buf + seq(a - |buf|, _ => Null)
  }

  /** Moving the last node of an ordered heap to slot 1 leaves it ready for `down_heap` there. */
  lemma PopReady(pool: seq<OctNode>, a: seq<int>, n: int)
    requires 3 <= n <= |a| && InPool(pool, a, n) && HeapOrdered(pool, a, n)
    ensures var b := a[1 := a[n - 1]][n - 1 := Null];
      InPool(pool, b, n - 1) && DownReady(pool, b, n - 1, 1)
  {
    var b := a[1 := a[n - 1]][n - 1 := Null];
    forall i | 2 <= i < n - 1 && i / 2 != 1
      ensures Ordered(pool, b, i)
    {
      assert Ordered(pool, a, i);
    }
  }

  /** Bit 1 of a node's `flags` (a `u8`, held as the integer it is): the node was added to the heap. */
  predicate Flagged(f: int) { f % 2 == 1 }

  /** `flags |= 1` on the integer value of a byte. */
  function SetAdded(f: int): (r: int)
    ensures Flagged(r)
    ensures Flagged(f) ==> r == f
    ensures 0 <= f < 256 ==> 0 <= r < 256
  {
    if Flagged(f) then f else f + 1
  }

  /** The integer view agrees with the C bit operations on the byte. */
  lemma FlagBits(f: bv8)
    ensures Flagged(f as int) <==> f & 1 == 1
    ensures SetAdded(f as int) == (f | 1) as int
  {
  }

  /** Every node in slots 1 .. n-1 is flagged. */
  ghost predicate AllFlagged(flags: seq<int>, buf: seq<int>, n: int)
    requires n <= |buf| && forall i :: 1 <= i < n ==> 0 <= buf[i] < |flags|
  {
    forall i :: 1 <= i < n ==> Flagged(flags[buf[i]])
  }

  /** A node that is not flagged is in no slot, so changing its key keeps the heap in order. */
  lemma NotInHeap(pool: seq<OctNode>, buf: seq<int>, n: int, flags: seq<int>, heapIdx: seq<int>, p: int, node: OctNode)
    requires |flags| == |pool| && |heapIdx| == |pool| && InPool(pool, buf, n) && HeapOrdered(pool, buf, n)
    requires AllFlagged(flags, buf, n) && 0 <= p < |pool| && !Flagged(flags[p])
    ensures forall i :: 1 <= i < n ==> buf[i] != p
    ensures HeapOrdered(pool[p := node], buf, n)
  {
    var q := pool[p := node];
    forall i | 2 <= i < n
      ensures Ordered(q, buf, i)
    {
      assert Ordered(pool, buf, i);
    }
  }

  /** Appending a node adds it to the members. */
  lemma AppendMembers(a: seq<int>, n: int, p: int)
    requires 1 <= n < |a|
    ensures Members(a[n := p], n + 1) == Members(a, n) + multiset{p}
  {
    assert a[n := p][1..n + 1] == a[1..n] + [p];
  }

  /** Moving the last node to slot 1 removes the old root from the members. */
  lemma PopMembers(a: seq<int>, n: int)
    requires 2 <= n <= |a|
    ensures Members(a[1 := a[n - 1]][n - 1 := Null], n - 1) + multiset{a[1]} == Members(a, n)
  {
    var b := a[1 := a[n - 1]][n - 1 := Null];
    if n > 2 {
      var mid := a[2..n - 1];
      assert b[1..n - 1] == [a[n - 1]] + mid;
      assert a[1..n] == [a[1]] + mid + [a[n - 1]];
      assert multiset(b[1..n - 1]) == multiset{a[n - 1]} + multiset(mid);
      assert multiset(a[1..n]) == multiset{a[1]} + multiset(mid) + multiset{a[n - 1]};
    } else {
      assert a[1..n] == [a[1]];
    }
  }

  /** After the last node moves to slot 1, every slot but 1 still knows its index. */
  lemma PopIndexed(heapIdx: seq<int>, a: seq<int>, n: int)
    requires 3 <= n <= |a| && (forall i :: 1 <= i < n ==> 0 <= a[i] < |heapIdx|)
    requires IndexedExcept(heapIdx, a, n, 0)
    ensures var b := a[1 := a[n - 1]][n - 1 := Null];
      (forall i :: 1 <= i < n - 1 ==> 0 <= b[i] < |heapIdx|) &&
      IndexedExcept(heapIdx[b[1] := 1], b, n - 1, 0) &&
      forall i :: 1 <= i < n - 1 && i != 1 ==> b[i] != b[1]
  {
    var b := a[1 := a[n - 1]][n - 1 := Null];
    forall i | 1 <= i < n - 1 && i != 1
      ensures b[i] != b[1] && heapIdx[b[1] := 1][b[i]] == i
    {
      assert heapIdx[a[i]] == i && heapIdx[a[n - 1]] == n - 1;
    }
  }

  /**
   * `pop_heap` on a heap of two or more slots: with the last node moved to
   * slot 1 and the last slot nulled, the heap has one node fewer, lost the
   * old root, and is ready for `down_heap` at slot 1 once that node's index
   * is set.
   */
  lemma RemoveReady(pool: seq<OctNode>, heapIdx: seq<int>, flags: seq<int>, a: seq<int>, n: int, b: seq<int>)
    requires |heapIdx| == |pool| && |flags| == |pool| && 2 <= n <= |a|
    requires InPool(pool, a, n) && HeapOrdered(pool, a, n)
    requires IndexedExcept(heapIdx, a, n, 0) && AllFlagged(flags, a, n)
    requires b == a[1 := a[n - 1]][n - 1 := Null]
    ensures InPool(pool, b, n - 1) && AllFlagged(flags, b, n - 1)
    ensures Members(b, n - 1) + multiset{a[1]} == Members(a, n)
    ensures n == 2 ==> HeapOrdered(pool, b, n - 1) && IndexedExcept(heapIdx, b, n - 1, 0)
    ensures n > 2 ==> DownReady(pool, b, n - 1, 1) && IndexedExcept(heapIdx[b[1] := 1], b, n - 1, 0)
  {
    PopMembers(a, n);
    if n > 2 {
      PopReady(pool, a, n);
      PopIndexed(heapIdx, a, n);
    }
  }

  /** A buffer that agrees with `buf` on slots 0 .. n-1 holds the same heap. */
  lemma ExtendValid(pool: seq<OctNode>, heapIdx: seq<int>, flags: seq<int>, buf: seq<int>, n: int, c: seq<int>)
    requires |heapIdx| == |pool| && |flags| == |pool| && 0 <= n && InPool(pool, buf, n) && HeapOrdered(pool, buf, n)
    requires IndexedExcept(heapIdx, buf, n, 0) && AllFlagged(flags, buf, n)
    requires n <= |c| && forall i :: 0 <= i < n ==> c[i] == buf[i]
    ensures InPool(pool, c, n) && HeapOrdered(pool, c, n)
    ensures IndexedExcept(heapIdx, c, n, 0) && AllFlagged(flags, c, n)
    ensures Members(c, n) == Members(buf, n)
  {
    assert forall i :: 2 <= i < n ==> Ordered(pool, buf, i) ==> Ordered(pool, c, i);
    if n >= 2 {
      assert c[1..n] == buf[1..n];
    }
  }

  /** What `pop_heap` does when it runs to the end or stops. */
  datatype PopOutcome = Empty | Popped(node: int) | NullDeref

  /**
   * `pop_heap` as written (src/graphics.c:484-497): it moves the last slot to
   * slot 1, nulls the last slot and then writes through `buf[1]`. With one
   * node left the last slot *is* slot 1, so the write goes through null.
   */
  function PopAsWritten(buf: seq<int>, n: int): (r: PopOutcome)
    requires 0 <= n <= |buf|
    ensures n <= 1 <==> r == Empty
  {
    if n <= 1 then Empty
    else
      var m := n - 1;
      var b := buf[1 := buf[m]][m := Null];
      if b[1] == Null then NullDeref else Popped(buf[1])
  }

  /** Popping the only node of the heap dereferences null. */
  lemma PopLastNodeIsNullDeref(buf: seq<int>)
    requires 2 <= |buf|
    ensures PopAsWritten(buf, 2) == NullDeref
  {
  }

  /** With two or more nodes left, the pop written that way returns slot 1. */
  lemma PopAsWrittenOtherwise(buf: seq<int>, n: int)
    requires 3 <= n <= |buf| && buf[n - 1] != Null
    ensures PopAsWritten(buf, n) == Popped(buf[1])
  {
  }

  class NodeHeap {
    /** The octree nodes the heap points into. */
    var pool: seq<OctNode>
    /** `heap_idx` of each node. */
    var heapIdx: seq<int>
    /** `flags` of each node; bit 1 marks a node that was added. */
    var flags: seq<int>
    /** `buf`: `alloc` slots, slot 0 unused, nodes in slots 1 .. n-1. */
    var buf: seq<int>
    var n: int
    var alloc: int

    ghost predicate Shape()
      reads this
    {
      |heapIdx| == |pool| && |flags| == |pool| && 0 <= n <= alloc && alloc == |buf| &&
      InPool(pool, buf, n)
    }

    /** A heap in order whose nodes know their slots and are flagged. */
    ghost predicate Valid()
      reads this
    {
      Shape() && HeapOrdered(pool, buf, n) && IndexedExcept(heapIdx, buf, n, 0) &&
      AllFlagged(flags, buf, n)
    }

    /** `node_heap heap = { 0, 0, 0 }` over a pool whose nodes are not yet flagged. */
    constructor (nodes: seq<OctNode>)
      ensures Valid() && pool == nodes && n == 0 && alloc == 0 && buf == []
      ensures forall i :: 0 <= i < |nodes| ==> flags[i] == 0
    {
      pool := nodes;
      heapIdx := seq(|nodes|, _ => 0);
      flags := seq(|nodes|, _ => 0);
      buf := [];
      n := 0;
      alloc := 0;
    }

    /**
     * `down_heap(h, p)` (src/graphics.c:424-444): the node at slot
     * `heap_idx` moves down past every smaller child.
     */
    method DownHeap(p: int)
      requires Shape() && 0 <= p < |pool| && 1 <= heapIdx[p] < n && buf[heapIdx[p]] == p
      requires DownReady(pool, buf, n, heapIdx[p]) && IndexedExcept(heapIdx, buf, n, 0)
      requires AllFlagged(flags, buf, n)
      modifies this
      ensures Shape() && pool == old(pool) && flags == old(flags) && n == old(n) && alloc == old(alloc)
      ensures 1 <= heapIdx[p] < n && buf[heapIdx[p]] == p && IndexedExcept(heapIdx, buf, n, 0)
      ensures UpReady(pool, buf, n, heapIdx[p])
      ensures heapIdx[p] != old(heapIdx[p]) ==> HeapOrdered(pool, buf, n)
      ensures multiset(buf[1..n]) == old(multiset(buf[1..n]))
      ensures buf[0] == old(buf[0]) && buf[n..] == old(buf[n..])
      ensures AllFlagged(flags, buf, n)
    {
      ghost var k := heapIdx[p];
      var j := heapIdx[p];
      while true
        invariant Shape() && pool == old(pool) && flags == old(flags) && n == old(n) && alloc == old(alloc)
        invariant AllFlagged(flags, buf, n)
        invariant Hole(j, p) && DownReady(pool, buf, n, j)
        invariant j != k ==> j >= 2 && Le(pool[buf[j / 2]], pool[p])
        invariant multiset(buf[1..n]) == old(multiset(buf[1..n]))
        invariant buf[0] == old(buf[0]) && buf[n..] == old(buf[n..])
        decreases n - j
      {
        var m, stop := PickChild(j, p);
        if stop {
          break;
        }
        DownStep(j, m, p);
        j := m;
      }
      heapIdx := heapIdx[p := j];
      DownDone(j, k, p);
    }

    /**
     * The test at the top of the `down_heap` loop: stop when `p` is no
     * greater than the children of `j` (or there are none), otherwise
     * name the smaller child.
     */
    method PickChild(j: int, p: int) returns (m: int, stop: bool)
      requires Shape() && 1 <= j < n && 0 <= p < |pool|
      ensures stop ==> forall i :: 2 <= i < n && i / 2 == j ==> Le(pool[p], pool[buf[i]])
      ensures !stop ==> j * 2 <= m <= j * 2 + 1 && m < n && !Le(pool[p], pool[buf[m]])
      ensures !stop ==> forall i :: 2 <= i < n && i / 2 == j ==> Le(pool[buf[m]], pool[buf[i]])
    {
      m := j * 2;
      if m >= n {
        return m, true;
      }
      if m + 1 < n && Cmp(pool[buf[m]], pool[buf[m + 1]]) > 0 {
        m := m + 1;
      }
      SmallerChild(pool, buf, n, j, m);
      stop := Cmp(pool[p], pool[buf[m]]) <= 0;
      if stop {
        AboveChildren(pool, buf, n, j, m, pool[p]);
      }
    }

    /** `p` sits at slot `j` and nowhere else, and every other slot knows its index. */
    ghost predicate Hole(j: int, p: int)
      reads this
      requires Shape()
    {
      0 <= p < |pool| && 1 <= j < n && buf[j] == p && IndexedExcept(heapIdx, buf, n, j) &&
      forall i :: 1 <= i < n && i != j ==> buf[i] != p
    }

    /** One move of `down_heap`: the smaller child `m` goes up into the hole `j`. */
    method DownStep(j: int, m: int, p: int)
      requires Shape() && Hole(j, p) && DownReady(pool, buf, n, j)
      requires j * 2 <= m <= j * 2 + 1 && m < n
      requires forall i :: 2 <= i < n && i / 2 == j ==> Le(pool[buf[m]], pool[buf[i]])
      requires !Le(pool[p], pool[buf[m]])
      modifies this
      ensures Shape() && pool == old(pool) && flags == old(flags) && n == old(n) && alloc == old(alloc)
      ensures buf == old(buf)[j := old(buf[m])][m := p]
      ensures Hole(m, p) && DownReady(pool, buf, n, m)
      ensures Le(pool[buf[m / 2]], pool[p])
      ensures multiset(buf[1..n]) == old(multiset(buf[1..n]))
    {
      var q := buf[m];
      SwapMultiset(buf, j, m, 1, n);
      DownSwapOrder(pool, buf, n, j, m, p);
      HoleMove(heapIdx, buf, n, j, m, p);
      buf := buf[j := q][m := p];
      heapIdx := heapIdx[q := j];
    }

    /** Where `down_heap` stops, only the pair above the node may be out of order. */
    lemma DownDone(j: int, k: int, p: int)
      requires Shape() && 0 <= p < |pool| && 1 <= j < n && buf[j] == p && heapIdx[p] == j
      requires DownReady(pool, buf, n, j)
      requires j != k ==> j >= 2 && Le(pool[buf[j / 2]], pool[p])
      requires forall i :: 2 <= i < n && i / 2 == j ==> Le(pool[p], pool[buf[i]])
      ensures UpReady(pool, buf, n, j)
      ensures j != k ==> HeapOrdered(pool, buf, n)
    {
    }

    /**
     * `up_heap(h, p)` (src/graphics.c:446-462): the node at slot `heap_idx`
     * moves up past every greater parent.
     */
    method UpHeap(p: int)
      requires Shape() && 0 <= p < |pool| && 1 <= heapIdx[p] < n && buf[heapIdx[p]] == p
      requires UpReady(pool, buf, n, heapIdx[p]) && IndexedExcept(heapIdx, buf, n, 0)
      requires AllFlagged(flags, buf, n)
      modifies this
      ensures Shape() && pool == old(pool) && flags == old(flags) && n == old(n) && alloc == old(alloc)
      ensures HeapOrdered(pool, buf, n) && IndexedExcept(heapIdx, buf, n, 0)
      ensures 1 <= heapIdx[p] < n && buf[heapIdx[p]] == p
      ensures multiset(buf[1..n]) == old(multiset(buf[1..n]))
      ensures buf[0] == old(buf[0]) && buf[n..] == old(buf[n..])
      ensures AllFlagged(flags, buf, n)
    {
      var j := heapIdx[p];
      while j > 1
        invariant Shape() && pool == old(pool) && flags == old(flags) && n == old(n) && alloc == old(alloc)
        invariant AllFlagged(flags, buf, n)
        invariant Hole(j, p) && UpReady(pool, buf, n, j)
        invariant multiset(buf[1..n]) == old(multiset(buf[1..n]))
        invariant buf[0] == old(buf[0]) && buf[n..] == old(buf[n..])
      {
        var prev := buf[j / 2];
        if Cmp(pool[p], pool[prev]) >= 0 {
          break;
        }
        UpStep(j, p);
        j := j / 2;
      }
      heapIdx := heapIdx[p := j];
      assert j >= 2 ==> Ordered(pool, buf, j);
    }

    /** One move of `up_heap`: the greater parent comes down into the hole `j`. */
    method UpStep(j: int, p: int)
      requires Shape() && Hole(j, p) && j >= 2
      requires UpReady(pool, buf, n, j) && !Le(pool[buf[j / 2]], pool[p])
      modifies this
      ensures Shape() && pool == old(pool) && flags == old(flags) && n == old(n) && alloc == old(alloc)
      ensures buf == old(buf)[j := old(buf[j / 2])][j / 2 := p]
      ensures Hole(j / 2, p) && UpReady(pool, buf, n, j / 2)
      ensures multiset(buf[1..n]) == old(multiset(buf[1..n]))
    {
      var h := j / 2;
      var prev := buf[h];
      SwapMultiset(buf, j, h, 1, n);
      UpSwapOrder(pool, buf, n, j, p);
      HoleMove(heapIdx, buf, n, j, h, p);
      buf := buf[j := prev][h := p];
      heapIdx := heapIdx[prev := j];
    }

    /**
     * `heap_add(h, p)` (src/graphics.c:464-482) after the caller has set the
     * node's fields to `node`: a node already flagged is re-sifted where it
     * is; a new one is flagged and appended at slot `n` (slot 0 stays
     * unused), growing `buf` by 1024 slots at a time, then sifted up.
     */
    method Add(p: int, node: OctNode)
      requires Valid() && 0 <= p < |pool|
      requires Flagged(flags[p]) ==> 1 <= heapIdx[p] < n && buf[heapIdx[p]] == p
      modifies this
      ensures Valid() && pool == old(pool)[p := node] && flags == old(flags)[p := SetAdded(old(flags[p]))]
      ensures Flagged(old(flags[p])) ==> n == old(n) && alloc == old(alloc) && Members(buf, n) == old(Members(buf, n))
      ensures !Flagged(old(flags[p])) ==>
        n == (if old(n) == 0 then 1 else old(n)) + 1 &&
        alloc == Grown(old(alloc), if old(n) == 0 then 1 else old(n)) &&
        Members(buf, n) == old(Members(buf, n)) + multiset{p}
      ensures 1 <= heapIdx[p] < n && buf[heapIdx[p]] == p
    {
      if Flagged(flags[p]) {
        Resift(p, node);
      } else {
        Append(p, node);
      }
    }

    /** The first branch of `heap_add`: a node whose key changed is moved down, then up. */
    method Resift(p: int, node: OctNode)
      requires Valid() && 0 <= p < |pool| && Flagged(flags[p]) && 1 <= heapIdx[p] < n && buf[heapIdx[p]] == p
      modifies this
      ensures Valid() && pool == old(pool)[p := node] && flags == old(flags)[p := SetAdded(old(flags[p]))]
      ensures n == old(n) && alloc == old(alloc) && Members(buf, n) == old(Members(buf, n))
      ensures 1 <= heapIdx[p] < n && buf[heapIdx[p]] == p
    {
        var k := heapIdx[p];
      KeyChangeReady(pool, buf, n, k, node);
      pool := pool[p := node];
      DownHeap(p);
      UpHeap(p);
    }

    /** The second branch of `heap_add`: flag the node, make room, store it last and sift it up. */
    method Append(p: int, node: OctNode)
      requires Valid() && 0 <= p < |pool| && !Flagged(flags[p])
      modifies this
      ensures Valid() && pool == old(pool)[p := node] && flags == old(flags)[p := SetAdded(old(flags[p]))]
      ensures n == (if old(n) == 0 then 1 else old(n)) + 1
      ensures alloc == Grown(old(alloc), if old(n) == 0 then 1 else old(n))
      ensures Members(buf, n) == old(Members(buf, n)) + multiset{p}
      ensures 1 <= heapIdx[p] < n && buf[heapIdx[p]] == p
    {
      Store(p, node);
      UpHeap(p);
    }

    /** `heap_add` up to the call of `up_heap`: the node flagged, room made, the node stored last. */
    method Store(p: int, node: OctNode)
      requires Valid() && 0 <= p < |pool| && !Flagged(flags[p])
      modifies this
      ensures Shape()
      ensures pool == old(pool)[p := node]
      ensures flags == old(flags)[p := SetAdded(old(flags[p]))]
      ensures n == (if old(n) == 0 then 1 else old(n)) + 1
      ensures alloc == Grown(old(alloc), if old(n) == 0 then 1 else old(n))
      ensures Members(buf, n) == old(Members(buf, n)) + multiset{p}
      ensures heapIdx[p] == n - 1 && buf[n - 1] == p
      ensures UpReady(pool, buf, n, n - 1) && IndexedExcept(heapIdx, buf, n, 0) && AllFlagged(flags, buf, n)
    {
      var m := if n == 0 then 1 else n;
      var a := Capacity(alloc, m);
      StoreReady(pool, heapIdx, flags, buf, n, a, p, node, m);
      pool, heapIdx, flags, buf, n, alloc := pool[p := node], heapIdx[p := m], flags[p := SetAdded(flags[p])], Padded(buf, a)[m := p], m + 1, a;
    }

    /** The growth loop of `heap_add`: `alloc` raised past `m` 1024 slots at a time. */
    method Capacity(alloc0: int, m: int) returns (a: int)
      ensures a == Grown(alloc0, m)
    {
      a := alloc0;
      while m >= a
        invariant Grown(a, m) == Grown(alloc0, m)
        decreases m - a
      {
        a := a + 1024;
      }
    }

    /**
     * `pop_heap` with the evident intent of src/graphics.c:484-497: null
     * for an empty heap; otherwise slot 1 is returned, the last node moves
     * to slot 1 and is sifted down, and the re-sift is skipped when no node
     * is left.
     */
    method Pop() returns (r: int)
      requires Valid()
      modifies this
      ensures Valid() && pool == old(pool) && flags == old(flags) && alloc == old(alloc)
      ensures old(n) <= 1 ==> r == Null && n == old(n) && buf == old(buf)
      ensures old(n) > 1 ==> r == old(buf[1]) && n == old(n) - 1 && Members(buf, n) + multiset{r} == old(Members(buf, n))
      ensures old(n) > 1 ==> forall i :: 1 <= i < old(n) ==> Le(pool[r], pool[old(buf[i])])
    {
      if n <= 1 {
        return Null;
      }
      forall i | 1 <= i < n
        ensures Le(pool[buf[1]], pool[buf[i]])
      {
        HeapMin(pool, buf, n, i);
      }
      r := buf[1];
      RemoveRoot();
    }

    /** The body of `pop_heap` after reading slot 1: the last node replaces it and is sifted down. */
    method RemoveRoot()
      requires Valid() && n > 1
      modifies this
      ensures Valid() && pool == old(pool) && flags == old(flags) && alloc == old(alloc)
      ensures n == old(n) - 1 && Members(buf, n) + multiset{old(buf[1])} == old(Members(buf, n))
    {
      var b := buf[1 := buf[n - 1]][n - 1 := Null];
      RemoveReady(pool, heapIdx, flags, buf, n, b);
      n, buf := n - 1, b;
      if n > 1 {
        heapIdx := heapIdx[buf[1] := 1];
        DownHeap(buf[1]);
        SiftedOrdered(buf[1]);
      }
    }

    /** Where a sift leaves its node, nothing is out of order once the pair above it is. */
    lemma SiftedOrdered(p: int)
      requires Shape() && 0 <= p < |pool| && 1 <= heapIdx[p] < n && buf[heapIdx[p]] == p
      requires UpReady(pool, buf, n, heapIdx[p]) && (heapIdx[p] == 1 || Ordered(pool, buf, heapIdx[p]))
      ensures HeapOrdered(pool, buf, n)
    {
    }
  }
}
