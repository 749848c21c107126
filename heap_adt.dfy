/// A binary min-heap stored in a growable array (HeapADT.c). The order is
/// supplied by the client as a comparison `le(lhs, rhs)`, read as "lhs may sit
/// above rhs"; the heap's guarantees rest on it being a total preorder.
module HeapADT {

  /** What the heap needs of the client's comparison: any two elements are
      comparable, and the comparison is transitive (hence also reflexive). */
  ghost predicate TotalPreorder<T(!new)>(le: (T, T) -> bool) {
    && (forall x, y :: le(x, y) || le(y, x))
    && (forall x, y, z :: le(x, y) && le(y, z) ==> le(x, z))
  }

  /** PARENT(index). Only used for non-root slots: C's truncating division
      also makes PARENT(0) == 0, which the sift-up loop relies on to stop at
      the root. */
  function Parent(k: nat): nat
    requires 0 < k
  {
    (k - 1) / 2
  }

  /** CHILD(index, LEFT) */
  function Left(i: nat): nat { 2 * i + 1 }

  /** CHILD(index, RIGHT) */
  function Right(i: nat): nat { 2 * i + 2 }

  lemma ParentOfChild(k: nat)
    requires 0 < k
    ensures k == Left(Parent(k)) || k == Right(Parent(k))
  {
  }

  // Heap order is stated from each slot to its children, 2i+1 and 2i+2,
  // rather than from a slot to its parent: the two say the same (see
  // HeapOrderedByParent), but the division in PARENT makes the solver's work
  // explode once such a quantifier is in play. The triggers sit on the child
  // term, so that an instance never produces a term matching again below it.

  /** Min-heap order: every slot may sit above its children. */
  ghost predicate HeapOrdered<T>(s: seq<T>, le: (T, T) -> bool) {
    && (forall p: nat {:trigger s[Left(p)]} :: Left(p) < |s| ==> le(s[p], s[Left(p)]))
    && (forall p: nat {:trigger s[Right(p)]} :: Right(p) < |s| ==> le(s[p], s[Right(p)]))
  }

  /** The order as written in the source's terms: no slot's parent is placed
      where it may not sit above it. */
  lemma HeapOrderedByParent<T>(s: seq<T>, le: (T, T) -> bool)
    ensures HeapOrdered(s, le) <==> forall k :: 0 < k < |s| ==> le(s[Parent(k)], s[k])
  {
    if HeapOrdered(s, le) {
      forall k | 0 < k < |s|
        ensures le(s[Parent(k)], s[k])
      {
        ParentOfChild(k);
      }
    }
    if forall k :: 0 < k < |s| ==> le(s[Parent(k)], s[k]) {
      forall p: nat | Left(p) < |s|
        ensures le(s[p], s[Left(p)])
      {
        assert Parent(Left(p)) == p;
      }
      forall p: nat | Right(p) < |s|
        ensures le(s[p], s[Right(p)])
      {
        assert Parent(Right(p)) == p;
      }
    }
  }

  ghost predicate Sorted<T>(s: seq<T>, le: (T, T) -> bool) {
    forall i, j :: 0 <= i < j < |s| ==> le(s[i], s[j])
  }

  /** Heap order while the element at `i` is sifted down: every slot but `i`
      may sit above its children, and `i`'s parent above `i`'s children. */
  ghost predicate OrderedExceptBelow<T>(s: seq<T>, i: nat, le: (T, T) -> bool) {
    && (forall p: nat {:trigger s[Left(p)]} :: p != i && Left(p) < |s| ==> le(s[p], s[Left(p)]))
    && (forall p: nat {:trigger s[Right(p)]} :: p != i && Right(p) < |s| ==> le(s[p], s[Right(p)]))
    && (0 < i && Left(i) < |s| ==> le(s[Parent(i)], s[Left(i)]))
    && (0 < i && Right(i) < |s| ==> le(s[Parent(i)], s[Right(i)]))
  }

  /** Heap order while the element at `i` is sifted up: every pair but `i`
      and its parent is ordered, and that parent may sit above `i`'s children. */
  ghost predicate OrderedExceptAbove<T>(s: seq<T>, i: nat, le: (T, T) -> bool) {
    && (forall p: nat {:trigger s[Left(p)]} :: Left(p) != i && Left(p) < |s| ==> le(s[p], s[Left(p)]))
    && (forall p: nat {:trigger s[Right(p)]} :: Right(p) != i && Right(p) < |s| ==> le(s[p], s[Right(p)]))
    && (0 < i && Left(i) < |s| ==> le(s[Parent(i)], s[Left(i)]))
    && (0 < i && Right(i) < |s| ==> le(s[Parent(i)], s[Right(i)]))
  }

  lemma Total<T(!new)>(le: (T, T) -> bool, x: T, y: T)
    requires TotalPreorder(le)
    ensures le(x, y) || le(y, x)
  {
  }

  lemma Transitive<T(!new)>(le: (T, T) -> bool, x: T, y: T, z: T)
    requires TotalPreorder(le)
    requires le(x, y) && le(y, z)
    ensures le(x, z)
  {
  }

  lemma Reflexive<T(!new)>(le: (T, T) -> bool, x: T)
    requires TotalPreorder(le)
    ensures le(x, x)
  {
    Total(le, x, x);
  }

  /** In a heap-ordered sequence the root may sit above every slot. */
  lemma {:induction false} RootBeforeSlot<T(!new)>(s: seq<T>, le: (T, T) -> bool, k: nat)
    requires TotalPreorder(le) && HeapOrdered(s, le)
    requires k < |s|
    ensures le(s[0], s[k])
    decreases k
  {
    if k == 0 {
      Reflexive(le, s[0]);
    } else {
      var p := Parent(k);
      ParentOfChild(k);
      RootBeforeSlot(s, le, p);
      assert le(s[p], s[k]);
      Transitive(le, s[0], s[p], s[k]);
    }
  }

  lemma RootIsMinimum<T(!new)>(s: seq<T>, le: (T, T) -> bool)
    requires TotalPreorder(le) && HeapOrdered(s, le)
    requires |s| > 0
    ensures forall x :: x in s ==> le(s[0], x)
  {
    forall x | x in s
      ensures le(s[0], x)
    {
      var k :| 0 <= k < |s| && s[k] == x;
      RootBeforeSlot(s, le, k);
    }
  }

  /** insertHeapItem's first step: the item placed after the last slot
      leaves heap order broken only above the new slot. */
  lemma AppendAtEnd<T>(s: seq<T>, item: T, le: (T, T) -> bool)
    requires HeapOrdered(s, le)
    ensures OrderedExceptAbove(s + [item], |s|, le)
    ensures multiset(s + [item]) == multiset(s) + multiset{item}
  {
  }

  /** One swap of the sift-up loop: an element that may sit above its parent
      changes place with it, and the break in heap order moves up with it. */
  lemma SiftUpStep<T(!new)>(s: seq<T>, i: nat, le: (T, T) -> bool)
    requires TotalPreorder(le)
    requires 0 < i < |s|
    requires OrderedExceptAbove(s, i, le)
    requires le(s[i], s[Parent(i)])
    ensures OrderedExceptAbove(s[i := s[Parent(i)]][Parent(i) := s[i]], Parent(i), le)
  {
    var p := Parent(i);
    var t := s[i := s[p]][p := s[i]];
    ParentOfChild(i);
    // the other child of p, if there is one
    var sib := if i == Left(p) then Right(p) else Left(p);
    if sib < |s| {
      assert le(s[p], s[sib]);
      Transitive(le, s[i], s[p], s[sib]);
    }
    forall q: nat | Left(q) != p && Left(q) < |t|
      ensures le(t[q], t[Left(q)])
    {
      if q == i {
        assert le(s[p], s[Left(i)]);
      }
    }
    forall q: nat | Right(q) != p && Right(q) < |t|
      ensures le(t[q], t[Right(q)])
    {
      if q == i {
        assert le(s[p], s[Right(i)]);
      }
    }
    if 0 < p {
      var g := Parent(p);
      ParentOfChild(p);
      assert le(s[g], s[p]);
      if sib < |s| {
        Transitive(le, s[g], s[p], s[sib]);
      }
    }
  }

  /** The sift-up loop's exit condition (at the root, at an identical parent,
      or at a parent the element may not go above) restores heap order. */
  lemma SiftUpDone<T(!new)>(s: seq<T>, i: nat, le: (T, T) -> bool)
    requires TotalPreorder(le)
    requires i < |s|
    requires OrderedExceptAbove(s, i, le)
    requires i == 0 || s[i] == s[Parent(i)] || !le(s[i], s[Parent(i)])
    ensures HeapOrdered(s, le)
  {
    if 0 < i {
      ParentOfChild(i);
      Total(le, s[Parent(i)], s[i]);
      assert le(s[Parent(i)], s[i]);
    }
  }

  /** removeTopHeap's first step: the last slot moves to the root, leaving
      heap order broken only below the root and one copy of the top fewer. */
  lemma MoveLastToRoot<T>(s: seq<T>, le: (T, T) -> bool)
    requires 0 < |s| && HeapOrdered(s, le)
    ensures OrderedExceptBelow(s[0 := s[|s| - 1]][..|s| - 1], 0, le)
    ensures multiset(s[0 := s[|s| - 1]][..|s| - 1]) == multiset(s) - multiset{s[0]}
  {
    var n := |s| - 1;
    var t := s[0 := s[n]][..n];
    forall p: nat | p != 0 && Left(p) < n
      ensures le(t[p], t[Left(p)])
    {
      assert le(s[p], s[Left(p)]);
    }
    forall p: nat | p != 0 && Right(p) < n
      ensures le(t[p], t[Right(p)])
    {
      assert le(s[p], s[Right(p)]);
    }
    if 0 < n {
      assert s == [s[0]] + s[1..n] + [s[n]];
      assert t == [s[n]] + s[1..n];
    }
  }

  /** One swap of the sift-down loop: the element at `i` changes place with
      the child `m` that may sit above it and its sibling, and the break in
      heap order moves down to `m`. */
  lemma SiftDownStep<T>(s: seq<T>, i: nat, m: nat, le: (T, T) -> bool)
    requires m == Left(i) || m == Right(i)
    requires m < |s|
    requires OrderedExceptBelow(s, i, le)
    requires le(s[m], s[i])
    requires Left(i) < |s| ==> le(s[m], s[Left(i)])
    requires Right(i) < |s| ==> le(s[m], s[Right(i)])
    ensures OrderedExceptBelow(s[i := s[m]][m := s[i]], m, le)
  {
    var t := s[i := s[m]][m := s[i]];
    assert Parent(m) == i;
    if 0 < i {
      ParentOfChild(i);
    }
    forall q: nat | q != m && Left(q) < |t|
      ensures le(t[q], t[Left(q)])
    {
      if q == i {
      } else if 0 < i && q == Parent(i) {
        assert le(s[q], s[m]);
      } else {
        assert le(s[q], s[Left(q)]);
      }
    }
    forall q: nat | q != m && Right(q) < |t|
      ensures le(t[q], t[Right(q)])
    {
      if q == i {
      } else if 0 < i && q == Parent(i) {
        assert le(s[q], s[m]);
      } else {
        assert le(s[q], s[Right(q)]);
      }
    }
  }

  /** The sift-down loop's exit condition (the element may sit above each of
      its children) restores heap order. */
  lemma SiftDownDone<T>(s: seq<T>, i: nat, le: (T, T) -> bool)
    requires OrderedExceptBelow(s, i, le)
    requires Left(i) < |s| ==> le(s[i], s[Left(i)])
    requires Right(i) < |s| ==> le(s[i], s[Right(i)])
    ensures HeapOrdered(s, le)
  {
  }

  /** The exchange of two heap slots that both sift loops perform; `n` is the
      length of the prefix in use. */
  method Swap<T>(a: array<T>, i: nat, j: nat, ghost n: nat)
    requires i < n && j < n && n <= a.Length
    modifies a
    ensures a[..n] == old(a[..n])[i := old(a[j])][j := old(a[i])]
    ensures a[n..] == old(a[n..])
    ensures multiset(a[..n]) == multiset(old(a[..n]))
  {
    a[i], a[j] := a[j], a[i];
  }

  /** struct Heap_S: `data` holds `capacity` slots of which the first `num`
      are the heap; `le` is `compFun`. */
  class Heap<T(0, ==, !new)> {
    var data: array<T>
    var capacity: nat
    var num: nat
    const le: (T, T) -> bool

    /** Everything but heap order; this holds in the middle of a sift too. */
    ghost predicate Shaped()
      reads this
    {
      && data.Length == capacity
      && 1 <= capacity
      && num <= capacity
      && TotalPreorder(le)
    }

    ghost predicate Valid()
      reads this, data
    {
      Shaped() && HeapOrdered(data[..num], le)
    }

    /** The heap's elements in storage order. */
    ghost function Elements(): seq<T>
      reads this, data
      requires num <= data.Length
    {
      data[..num]
    }

    /** createHeap. The comparison is a total function here, so the source's
        non-null checks have nothing to test. */
    constructor (capacity: nat, le: (T, T) -> bool)
      requires 1 <= capacity
      requires TotalPreorder(le)
      ensures Valid() && fresh(data)
      ensures this.capacity == capacity && this.le == le
      ensures num == 0 && Elements() == []
    {
      data := new T[capacity];
      this.capacity := capacity;
      num := 0;
      this.le := le;
    }

    /** sizeHeap */
    function Size(): (n: nat)
      reads this, data
      requires Valid()
      ensures n == |Elements()|
    {
      num
    }

    /** topHeap: the root, which may sit above every element. */
    function Top(): (t: T)
      reads this, data
      requires Valid()
      requires num != 0
      ensures t == Elements()[0]
      ensures forall x :: x in Elements() ==> le(t, x)
    {
      RootIsMinimum(data[..num], le);
      data[0]
    }

    /** smallestIndex: `index` or the one of its existing children that may sit
        above the others; `index` is kept on a tie with either child. */
    function SmallestIndex(index: nat): (r: nat)
      reads this, data
      requires Shaped()
      ensures r == index || r == Left(index) || r == Right(index)
      ensures Left(index) >= num ==> r == index
      ensures r != index ==> index < num && r < num && !le(data[index], data[r])
      ensures index < num ==> le(data[r], data[index])
      ensures Left(index) < num ==> le(data[r], data[Left(index)])
      ensures Right(index) < num ==> le(data[r], data[Right(index)])
    {
      if Left(index) >= num then
        index
      else if Right(index) >= num then
        if !le(data[index], data[Left(index)]) then Left(index) else index
      else
        var minIndex := if !le(data[Left(index)], data[Right(index)]) then Right(index) else Left(index);
        if le(data[index], data[minIndex]) then index else minIndex
    }

    /** removeTopHeap: the last element replaces the root and is sifted down. */
    method RemoveTop() returns (top: T)
      requires Valid()
      requires num != 0
      modifies this, data
      ensures Valid()
      ensures data == old(data) && capacity == old(capacity)
      ensures top == old(Elements())[0]
      ensures forall x :: x in old(Elements()) ==> le(top, x)
      ensures num == old(num) - 1
      ensures multiset(Elements()) == multiset(old(Elements())) - multiset{top}
    {
      ghost var before := data[..num];
      RootIsMinimum(before, le);
      top := data[0];
      data[0] := data[num - 1];
      num := num - 1;
      // The source also clears the vacated slot; it lies outside the heap.
      assert OrderedExceptBelow(data[..num], 0, le)
          && multiset(data[..num]) == multiset(before) - multiset{top} by {
        assert data[..num] == before[0 := before[num]][..num];
        MoveLastToRoot(before, le);
      }
      SiftDown();
    }

    /** removeTopHeap's loop: the root moves down, changing place with the
        child smallestIndex picks, until smallestIndex keeps it in place. */
    method SiftDown()
      requires Shaped() && OrderedExceptBelow(data[..num], 0, le)
      modifies data
      ensures Valid()
      ensures multiset(data[..num]) == multiset(old(data[..num]))
    {
      var index: nat := 0;
      var minIndex := SmallestIndex(index);
      while minIndex != index
        invariant index <= num
        invariant minIndex == SmallestIndex(index)
        invariant OrderedExceptBelow(data[..num], index, le)
        invariant multiset(data[..num]) == multiset(old(data[..num]))
        decreases num - index
      {
        SiftDownStep(data[..num], index, minIndex, le);
        Swap(data, index, minIndex, num);
        index := minIndex;
        minIndex := SmallestIndex(index);
      }
      SiftDownDone(data[..num], index, le);
    }

    /** insertHeapItem: doubles the storage when full, places the item in the
        next free slot and sifts it up. */
    method Insert(item: T)
      requires Valid()
      modifies this, data
      ensures Valid()
      ensures num == old(num) + 1
      ensures multiset(Elements()) == multiset(old(Elements())) + multiset{item}
      ensures capacity == if old(num) == old(capacity) then 2 * old(capacity) else old(capacity)
      ensures old(num) == old(capacity) ==> fresh(data)
      ensures old(num) < old(capacity) ==> data == old(data)
    {
      if num == capacity {
        Grow();
      }
      SiftUp(item);
      num := num + 1;
    }

    /** The realloc step of insertHeapItem: twice the slots, same heap. */
    method Grow()
      requires Valid() && num == capacity
      modifies this
      ensures Valid() && fresh(data)
      ensures capacity == 2 * old(capacity) && num == old(num)
      ensures Elements() == old(Elements())
    {
      var grown := new T[2 * capacity];
      forall i | 0 <= i < num {
        grown[i] := data[i];
      }
      assert grown[..num] == data[..num];
      data, capacity := grown, 2 * capacity;
    }

    /** insertHeapItem's loop: the item, placed in slot `num`, changes place
        with its parent while it may sit above it and is not the very same
        element; it stops at the root (where C's PARENT(0) == 0 makes the
        slots identical). */
    method SiftUp(item: T)
      requires Shaped() && num < capacity
      requires HeapOrdered(data[..num], le)
      modifies data
      ensures HeapOrdered(data[..num + 1], le)
      ensures multiset(data[..num + 1]) == multiset(old(data[..num])) + multiset{item}
    {
      var a, n := data, num + 1;
      ghost var before := a[..num];
      a[num] := item;
      assert a[..n] == before + [item];
      AppendAtEnd(before, item, le);
      var index: nat := num;
      while index > 0 && a[index] != a[Parent(index)] && le(a[index], a[Parent(index)])
        invariant index < n
        invariant OrderedExceptAbove(a[..n], index, le)
        invariant multiset(a[..n]) == multiset(before) + multiset{item}
        decreases index
      {
        var parent := Parent(index);
        SiftUpStep(a[..n], index, le);
        Swap(a, index, parent, n);
        index := parent;
      }
      SiftUpDone(a[..n], index, le);
    }

    /** dumpHeap: visits the heap's slots in storage order (the printing
        itself goes through the client's callback and is not modelled). */
    method Dump() returns (visited: seq<T>)
      requires Valid()
      ensures visited == Elements()
    {
      visited := [];
      for d := 0 to num
        invariant visited == data[..d]
      {
        visited := visited + [data[d]];
      }
    }
  }

  /** One round of draining: the least remaining element extends the sorted
      output, which still may sit above everything left in the heap. */
  lemma DrainStep<T>(ys: seq<T>, rest: seq<T>, left: seq<T>, top: T, le: (T, T) -> bool)
    requires Sorted(ys, le)
    requires top in rest
    requires forall y, x :: y in ys && x in rest ==> le(y, x)
    requires forall x :: x in rest ==> le(top, x)
    requires multiset(left) == multiset(rest) - multiset{top}
    ensures Sorted(ys + [top], le)
    ensures forall y, x :: y in ys + [top] && x in left ==> le(y, x)
  {
    forall x | x in left
      ensures x in rest
    {
      assert x in multiset(left);
    }
  }

  /** Every item of `xs` inserted, one insertHeapItem call each, into a heap
      created with room for one. */
  method FillHeap<T(0, ==, !new)>(xs: seq<T>, le: (T, T) -> bool) returns (h: Heap<T>)
    requires TotalPreorder(le)
    ensures h.Valid() && fresh(h) && fresh(h.data) && h.le == le
    ensures multiset(h.Elements()) == multiset(xs)
  {
    h := new Heap(1, le);
    for i := 0 to |xs|
      invariant h.Valid() && fresh(h) && fresh(h.data) && h.le == le
      invariant multiset(h.Elements()) == multiset(xs[..i])
    {
      h.Insert(xs[i]);
      assert xs[..i + 1] == xs[..i] + [xs[i]];
    }
    assert xs[..|xs|] == xs;
  }

  /** What a client draining the heap observes: items inserted in any order
      come out of removeTopHeap as the same multiset, in `le` order. */
  method DrainInOrder<T(0, ==, !new)>(xs: seq<T>, le: (T, T) -> bool) returns (ys: seq<T>)
    requires TotalPreorder(le)
    ensures multiset(ys) == multiset(xs)
    ensures Sorted(ys, le)
  {
    var h := FillHeap(xs, le);
    ys := [];
    while h.Size() != 0
      invariant h.Valid() && fresh(h) && fresh(h.data) && h.le == le
      invariant multiset(ys) + multiset(h.Elements()) == multiset(xs)
      invariant Sorted(ys, le)
      invariant forall y, x :: y in ys && x in h.Elements() ==> le(y, x)
      decreases h.num
    {
      ghost var rest := h.Elements();
      var top := h.RemoveTop();
      DrainStep(ys, rest, h.Elements(), top, le);
      assert top in multiset(rest);
      ys := ys + [top];
    }
  }
}
