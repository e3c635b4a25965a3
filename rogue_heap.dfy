// heap.c of the roguelike example: a binary heap of pointers in a
// `data` array of `size` slots, the first `len` of them live, ordered so
// that no child beats its parent under the stored `compare` (the root is
// the element `compare` ranks highest).
module RogueHeap {
  import opened Wrappers
  import opened Strings

  /** `compare(a, b) <= 0`: a does not beat b. */
  predicate Le<T(!new)>(cmp: (T, T) -> int, a: T, b: T) {
    cmp(a, b) <= 0
  }

  /**
   * What a sane `compare` callback satisfies (as `astar_comp` does):
   * swapping the arguments flips the sign, and "does not beat" is
   * transitive.
   */
  ghost predicate Comparator<T(!new)>(cmp: (T, T) -> int) {
    (forall a, b :: cmp(a, b) > 0 <==> cmp(b, a) < 0) &&
    (forall a, b, c :: Le(cmp, a, b) && Le(cmp, b, c) ==> Le(cmp, a, c))
  }

  lemma LeTransitive<T(!new)>(cmp: (T, T) -> int, a: T, b: T, c: T)
    requires Comparator(cmp) && Le(cmp, a, b) && Le(cmp, b, c)
    ensures Le(cmp, a, c)
  {
  }

  /** One of any two elements does not beat the other; nothing beats itself. */
  lemma LeTotal<T(!new)>(cmp: (T, T) -> int, a: T, b: T)
    requires Comparator(cmp)
    ensures Le(cmp, a, b) || Le(cmp, b, a)
    ensures Le(cmp, a, a)
  {
    assert cmp(a, a) > 0 <==> cmp(a, a) < 0;
  }

  /** `(i - 1) / 2`, the parent slot of `sift` (heap.c:52); i - 1 is never negative. */
  function Parent(i: int): (p: int)
    requires 1 <= i
    ensures 0 <= p < i && (i == 2 * p + 1 || i == 2 * p + 2)
  {
    (i - 1) / 2
  }

  /** No live child beats its parent. */
  ghost predicate HeapOrdered<T(!new)>(cmp: (T, T) -> int, d: seq<T>, n: int)
    requires 0 <= n <= |d|
  {
    forall j :: 0 < j < n ==> Le(cmp, d[j], d[Parent(j)])
  }

  /** Where `sift` works: only slot k may beat its parent, and k's children do not beat k's parent. */
  ghost predicate UpReady<T(!new)>(cmp: (T, T) -> int, d: seq<T>, n: int, k: int)
    requires 0 <= k < n <= |d|
  {
    (forall j :: 0 < j < n && j != k ==> Le(cmp, d[j], d[Parent(j)])) &&
    (k > 0 ==> forall j :: 0 < j < n && Parent(j) == k ==> Le(cmp, d[j], d[Parent(k)]))
  }

  /** Where `sift_down` works: only k's children may beat k, and they do not beat k's parent. */
  ghost predicate DownReady<T(!new)>(cmp: (T, T) -> int, d: seq<T>, n: int, k: int)
    requires 0 <= k <= n <= |d|
  {
    (forall j :: 0 < j < n && Parent(j) != k ==> Le(cmp, d[j], d[Parent(j)])) &&
    (k > 0 ==> forall j :: 0 < j < n && Parent(j) == k ==> Le(cmp, d[j], d[Parent(k)]))
  }

  /** No live element beats the root of an ordered heap. */
  lemma {:induction false} RootBeatsAll<T(!new)>(cmp: (T, T) -> int, d: seq<T>, n: int, i: int)
    requires Comparator(cmp) && 0 <= i < n <= |d| && HeapOrdered(cmp, d, n)
    ensures Le(cmp, d[i], d[0])
    decreases i
  {
    if i == 0 {
      LeTotal(cmp, d[0], d[0]);
    } else {
      RootBeatsAll(cmp, d, n, Parent(i));
      LeTransitive(cmp, d[i], d[Parent(i)], d[0]);
    }
  }

  /** A heap with one slot appended is ready for `sift` at that slot. */
  lemma AppendUpReady<T(!new)>(cmp: (T, T) -> int, d: seq<T>, n: int)
    requires 0 <= n < |d| && HeapOrdered(cmp, d, n)
    ensures UpReady(cmp, d, n + 1, n)
  {
  }

  /** Swapping a slot that beats its parent with that parent moves the exception one level up. */
  lemma UpSwap<T(!new)>(cmp: (T, T) -> int, d: seq<T>, n: int, k: int)
    requires Comparator(cmp) && 0 < k < n <= |d| && UpReady(cmp, d, n, k)
    requires cmp(d[k], d[Parent(k)]) > 0
    ensures var pk := Parent(k); UpReady(cmp, d[k := d[pk]][pk := d[k]], n, pk)
  {
    var pk := Parent(k);
    var x, p := d[k], d[pk];
    var e := d[k := p][pk := x];
    assert Le(cmp, p, x);
    forall j | 0 < j < n && j != pk
      ensures Le(cmp, e[j], e[Parent(j)])
    {
      if j == k {
      } else if Parent(j) == k {
        assert Le(cmp, d[j], p);
      } else if Parent(j) == pk {
        assert Le(cmp, d[j], p);
        LeTransitive(cmp, d[j], p, x);
      }
    }
    if pk > 0 {
      forall j | 0 < j < n && Parent(j) == pk
        ensures Le(cmp, e[j], e[Parent(pk)])
      {
        assert Le(cmp, p, d[Parent(pk)]);
        if j != k {
          LeTransitive(cmp, d[j], p, d[Parent(pk)]);
        }
      }
    }
  }

  /** Swapping slot k with its child c that beats k and is not beaten by its sibling moves the exception down to c. */
  lemma DownSwap<T(!new)>(cmp: (T, T) -> int, d: seq<T>, n: int, k: int, c: int)
    requires Comparator(cmp) && 0 <= k < c < n <= |d| && Parent(c) == k && DownReady(cmp, d, n, k)
    requires cmp(d[c], d[k]) > 0
    requires forall j :: 0 < j < n && Parent(j) == k ==> Le(cmp, d[j], d[c])
    ensures DownReady(cmp, d[k := d[c]][c := d[k]], n, c)
  {
    var x, q := d[k], d[c];
    var e := d[k := q][c := x];
    assert Le(cmp, x, q);
    forall j | 0 < j < n && Parent(j) != c
      ensures Le(cmp, e[j], e[Parent(j)])
    {
      if j == c {
      } else if Parent(j) == k {
      } else if j == k {
      }
    }
    forall j | 0 < j < n && Parent(j) == c
      ensures Le(cmp, e[j], e[Parent(c)])
    {
    }
  }

  /** The slot `sift_down` picks at k: k, or the child (tested up to slot n) that beats it most. */
  function Pick<T(!new)>(cmp: (T, T) -> int, d: seq<T>, n: int, k: int): (mi: int)
    requires 0 <= k <= n < |d|
    ensures mi == k || mi == 2 * k + 1 || mi == 2 * k + 2
    ensures mi <= n
  {
    var l, r := 2 * k + 1, 2 * k + 2;
    var m := if l <= n && cmp(d[l], d[k]) > 0 then l else k;
    if r <= n && cmp(d[r], d[m]) > 0 then r else m
  }

  /** When no child beats slot k, a heap ready at k is ordered. */
  lemma DownDone<T(!new)>(cmp: (T, T) -> int, d: seq<T>, n: int, k: int)
    requires 0 <= k <= n < |d| && Pick(cmp, d, n, k) == k
    ensures Comparator(cmp) && DownReady(cmp, d, n, k) ==> HeapOrdered(cmp, d, n)
  {
    if Comparator(cmp) && DownReady(cmp, d, n, k) {
      forall j | 0 < j < n && Parent(j) == k
        ensures Le(cmp, d[j], d[k])
      {
        LeTotal(cmp, d[j], d[k]);
      }
    }
  }

  /**
   * One swap of `sift_down`: the live elements and the stale copy at n
   * are kept, and under a sane `compare` the picked child is live and
   * the heap is ready at it.
   */
  lemma DownStep<T(!new)>(cmp: (T, T) -> int, d: seq<T>, n: int, k: int, mi: int)
    requires 0 <= k <= n < |d| && d[n] == d[k] && mi == Pick(cmp, d, n, k) && mi != k
    ensures var e := d[k := d[mi]][mi := d[k]];
      multiset(e[..n]) == multiset(d[..n]) && e[n..] == d[n..] && e[n] == e[mi]
    ensures Comparator(cmp) ==> mi < n
    ensures Comparator(cmp) && DownReady(cmp, d, n, k) ==> DownReady(cmp, d[k := d[mi]][mi := d[k]], n, mi)
  {
    var l, r := 2 * k + 1, 2 * k + 2;
    if mi == n {
      assert d[k := d[mi]][mi := d[k]] == d;
      if Comparator(cmp) {
        LeTotal(cmp, d[k], d[k]);
        if l <= n && cmp(d[l], d[k]) > 0 {
          LeTotal(cmp, d[l], d[n]);
        }
      }
    } else {
      SwapMultiset(d, k, mi, n);
      if Comparator(cmp) && DownReady(cmp, d, n, k) {
        PickBeats(cmp, d, n, k, mi);
        DownSwap(cmp, d, n, k, mi);
      }
    }
  }

  /** The live child `sift_down` picks beats k and is not beaten by its sibling. */
  lemma PickBeats<T(!new)>(cmp: (T, T) -> int, d: seq<T>, n: int, k: int, mi: int)
    requires Comparator(cmp) && 0 <= k < mi < n < |d| && mi == Pick(cmp, d, n, k)
    ensures cmp(d[mi], d[k]) > 0 && Parent(mi) == k
    ensures forall j :: 0 < j < n && Parent(j) == k ==> Le(cmp, d[j], d[mi])
  {
    var l, r := 2 * k + 1, 2 * k + 2;
    LeTotal(cmp, d[mi], d[mi]);
    if mi == r && l <= n && cmp(d[l], d[k]) > 0 {
      LeTotal(cmp, d[l], d[r]);
      if Le(cmp, d[r], d[k]) {
        LeTotal(cmp, d[k], d[l]);
        LeTransitive(cmp, d[r], d[k], d[l]);
      }
    } else if mi == r {
      LeTotal(cmp, d[l], d[k]);
      LeTotal(cmp, d[k], d[r]);
      if l < n {
        LeTransitive(cmp, d[l], d[k], d[r]);
      }
    } else if r < n {
      LeTotal(cmp, d[r], d[l]);
    }
  }

  /** Heap order depends only on the live prefix. */
  lemma OrderedPrefix<T(!new)>(cmp: (T, T) -> int, d: seq<T>, e: seq<T>, n: int)
    requires 0 <= n <= |d| && n <= |e| && d[..n] == e[..n] && HeapOrdered(cmp, d, n)
    ensures HeapOrdered(cmp, e, n)
  {
    forall j | 0 < j < n
      ensures Le(cmp, e[j], e[Parent(j)])
    {
      assert e[j] == d[..n][j] && e[Parent(j)] == d[..n][Parent(j)];
    }
  }

  /** Moving the last of n + 1 ordered elements to the root leaves a heap ready for `sift_down` at 0. */
  lemma RemoveReady<T(!new)>(cmp: (T, T) -> int, d: seq<T>, n: int)
    requires 0 <= n < |d| && HeapOrdered(cmp, d, n + 1)
    ensures DownReady(cmp, d[0 := d[n]], n, 0)
  {
    var e := d[0 := d[n]];
    forall j | 0 < j < n && Parent(j) != 0
      ensures Le(cmp, e[j], e[Parent(j)])
    {
      assert e[j] == d[j] && e[Parent(j)] == d[Parent(j)];
    }
  }

  /** Swapping two live slots keeps the live elements. */
  lemma SwapMultiset<T(!new)>(d: seq<T>, i: int, j: int, n: int)
    requires 0 <= i < n <= |d| && 0 <= j < n
    ensures multiset(d[i := d[j]][j := d[i]][..n]) == multiset(d[..n])
  {
    var u := d[..n];
    assert d[i := d[j]][j := d[i]][..n] == u[i := u[j]][j := u[i]];
  }

  /** The `heap_t` record. */
  class Heap<T(!new)> {
    var data: seq<T>
    var len: int
    var size: int
    const compare: (T, T) -> int

    ghost predicate Valid()
      reads this
    {
      0 < size && 0 <= len <= size && |data| == size
    }

    /** The live elements `data[0 .. len-1]`. */
    function Live(): seq<T>
      requires Valid()
      reads this
    {
      data[..len]
    }

    ghost predicate Ordered()
      requires Valid()
      reads this
    {
      HeapOrdered(compare, data, len)
    }

    /**
     * `heap_new(len, compare)` (heap.c:11-20): `size` slots, none live,
     * holding whatever `malloc` returned (`slots`). The `malloc` failure
     * that returns NULL is not modelled, and a positive `len` is needed:
     * with 0 slots `insert` doubles 0 and writes past the array.
     */
    constructor (n: int, compare: (T, T) -> int, slots: seq<T>)
      requires 0 < n && |slots| == n
      ensures Valid() && len == 0 && size == n && data == slots && this.compare == compare
      ensures Ordered()
    {
      data, size, len := slots, n, 0;
      this.compare := compare;
    }

    /**
     * `insert(h, n)` (heap.c:27-37): when full, the array is doubled
     * (its new half holding `junk`); if that `realloc` fails (`grown`
     * false) it returns 0 with nothing changed. Otherwise n is stored at
     * `data[len]`, `len` grows by one and it returns 1.
     */
    method Insert(n: T, grown: bool, junk: seq<T>) returns (result: int)
      requires Valid() && |junk| == size
      modifies this
      ensures Valid()
      ensures result == 0 || result == 1
      ensures result == 0 <==> old(len) >= old(size) && !grown
      ensures result == 0 ==> data == old(data) && len == old(len) && size == old(size)
      ensures result == 1 ==>
        len == old(len) + 1 && Live() == old(Live()) + [n] &&
        size == (if old(len) >= old(size) then 2 * old(size) else old(size)) &&
        data == (if old(len) >= old(size) then old(data) + junk else old(data))[old(len) := n]
    {
      if len >= size {
        if !grown {
          return 0;
        }
        data := data + junk;
        size := size * 2;
      }
      data := data[len := n];
      len := len + 1;
      result := 1;
    }

    /** `peek(h)` (heap.c:39-41): NULL for an empty heap, else the root. */
    function Peek(): (r: Option<T>)
      requires Valid()
      reads this
      ensures r == None <==> len < 1
      ensures r != None ==> r.value == data[0]
      ensures r != None && Comparator(compare) && Ordered() ==> forall i :: 0 <= i < len ==> Le(compare, data[i], r.value)
    {
      if len < 1 then None
      else
        PeekBeatsAll();
        Some(data[0])
    }

    lemma PeekBeatsAll()
      requires Valid() && len >= 1
      ensures Comparator(compare) && Ordered() ==> forall i :: 0 <= i < len ==> Le(compare, data[i], data[0])
    {
      if Comparator(compare) && Ordered() {
        forall i | 0 <= i < len
          ensures Le(compare, data[i], data[0])
        {
          RootBeatsAll(compare, data, len, i);
        }
      }
    }

    /** `swap(&data[i], &data[j])` (heap.c:43-47). */
    method Swap(i: int, j: int)
      requires Valid() && 0 <= i < size && 0 <= j < size
      modifies this
      ensures Valid() && len == old(len) && size == old(size)
      ensures data == old(data)[i := old(data)[j]][j := old(data)[i]]
    {
      data := data[i := data[j]][j := data[i]];
    }

    /**
     * `sift(h, i, compare)` (heap.c:49-57): while slot i beats its
     * parent, swap them and go on from the parent. It permutes the live
     * elements, leaves an ordered heap as it is, and orders a heap whose
     * only exception is slot i.
     */
    method Sift(i: int)
      requires Valid() && 0 <= i < len
      modifies this
      ensures Valid() && len == old(len) && size == old(size)
      ensures multiset(Live()) == multiset(old(Live())) && data[len..] == old(data[len..])
      ensures old(Ordered()) ==> data == old(data)
      ensures Comparator(compare) && old(UpReady(compare, data, len, i)) ==> Ordered()
      decreases i
    {
      if i == 0 {
        return;
      }
      var pi := Parent(i);
      if compare(data[i], data[pi]) > 0 {
        ghost var d := data;
        if Comparator(compare) && UpReady(compare, d, len, i) {
          UpSwap(compare, d, len, i);
        }
        SwapMultiset(d, i, pi, len);
        Swap(i, pi);
        Sift(pi);
      }
    }

    /**
     * `sift_down(h, i, compare)` (heap.c:59-73): swap slot i with
     * whichever of its children beats it most, going on from there. The
     * tests `l <= len` and `r <= len` also look at slot `len`, one past
     * the live elements; `heap_remove` leaves there a copy of the element
     * being sifted, so choosing it swaps two equal values and stops.
     */
    method SiftDown(i: int)
      requires Valid() && 0 <= i <= len < size && data[len] == data[i]
      modifies this
      ensures Valid() && len == old(len) && size == old(size)
      ensures multiset(Live()) == multiset(old(Live())) && data[len..] == old(data[len..])
      ensures Comparator(compare) && old(DownReady(compare, data, len, i)) ==> Ordered()
      decreases len - i
    {
      var l, r, mi := i * 2 + 1, i * 2 + 2, i;
      if l <= len && compare(data[l], data[mi]) > 0 {
        mi := l;
      }
      if r <= len && compare(data[r], data[mi]) > 0 {
        mi := r;
      }
      if mi != i {
        DownStep(compare, data, len, i, mi);
        Swap(i, mi);
        SiftDown(mi);
      } else {
        DownDone(compare, data, len, i);
      }
    }

    /**
     * `heap_add(h, data)` (heap.c:75-80) as written: it sifts only when
     * `insert` failed, so a successful add appends the element with no
     * reordering, and a failed one sifts the last live slot of a heap it
     * did not change.
     */
    method AddAsWritten(item: T, grown: bool, junk: seq<T>) returns (result: int)
      requires Valid() && |junk| == size
      modifies this
      ensures Valid()
      ensures result == 0 <==> old(len) >= old(size) && !grown
      ensures result == 1 ==> Live() == old(Live()) + [item]
      ensures result == 0 ==> len == old(len) && multiset(Live()) == multiset(old(Live()))
      ensures result == 0 && old(Ordered()) ==> data == old(data)
    {
      result := Insert(item, grown, junk);
      if result == 0 {
        Sift(len - 1);
      }
    }

    /**
     * `heap_add` with the sift on success that it evidently intends:
     * the element joins the live ones and an ordered heap stays ordered.
     */
    method Add(item: T, grown: bool, junk: seq<T>) returns (result: int)
      requires Valid() && |junk| == size
      modifies this
      ensures Valid()
      ensures result == 0 <==> old(len) >= old(size) && !grown
      ensures result == 1 ==> len == old(len) + 1 && multiset(Live()) == multiset(old(Live())) + multiset{item}
      ensures result == 0 ==> data == old(data) && len == old(len)
      ensures Comparator(compare) && old(Ordered()) ==> Ordered()
    {
      ghost var was, d := Ordered(), data;
      result := Insert(item, grown, junk);
      if result == 1 {
        if was {
          OrderedPrefix(compare, d, data, len - 1);
          AppendUpReady(compare, data, len - 1);
        }
        Sift(len - 1);
      }
    }

    /**
     * `heap_remove(h)` (heap.c:82-89): NULL for an empty heap; otherwise
     * the root, with the last live element moved to slot 0 and sifted
     * down. An ordered heap stays ordered.
     */
    method Remove() returns (root: Option<T>)
      requires Valid()
      modifies this
      ensures Valid()
      ensures root == old(Peek())
      ensures old(len) == 0 ==> data == old(data) && len == 0
      ensures old(len) > 0 ==> len == old(len) - 1 && multiset(Live()) == multiset(old(Live())) - multiset{old(data[0])}
      ensures Comparator(compare) && old(Ordered()) ==> Ordered()
    {
      if len == 0 {
        return None;
      }
      root := Peek();
      ghost var d, was := data, Ordered();
      len := len - 1;
      data := data[0 := data[len]];
      RemoveLive(d, len);
      if was {
        RemoveReady(compare, d, len);
      }
      SiftDown(0);
    }

    lemma RemoveLive(d: seq<T>, n: int)
      requires 0 <= n < |d|
      ensures multiset(d[0 := d[n]][..n]) == multiset(d[..n + 1]) - multiset{d[0]}
    {
      if n > 0 {
        assert d[0 := d[n]][..n] == [d[n]] + d[1..n];
        assert d[..n + 1] == [d[0]] + d[1..n] + [d[n]];
      }
    }
  }

  /** The comparator of an integer max-heap. */
  function IntCompare(a: int, b: int): int { a - b }

  /**
   * Under `heap_add` as written, adding 5 to the ordered heap [1] leaves
   * [1, 5] (`AddAsWritten` ensures the live elements are the old ones plus
   * the new one, in that order): 5 beats its parent 1.
   */
  lemma AddAsWrittenBreaksOrder()
    ensures Comparator(IntCompare)
    ensures HeapOrdered(IntCompare, [1], 1) && !HeapOrdered(IntCompare, [1] + [5], 2)
  {
    assert Parent(1) == 0;
  }
}
