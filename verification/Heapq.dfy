/** The heap of extmod/modheapq.c:41-104: a list kept so that no item is less than its parent. */
module Heapq {
  import opened Common

  /** `less` is the strict part of a total preorder: its negation is total and transitive. */
  ghost predicate Preorder<T(!new)>(less: (T, T) -> bool) {
    && (forall a, b :: less(a, b) ==> !less(b, a))
    && (forall a, b, c :: !less(b, a) && !less(c, b) ==> !less(c, a))
  }

  function Parent(i: nat): nat
    requires i > 0
  {
    (i - 1) / 2
  }

  ghost predicate Ordered<T>(less: (T, T) -> bool, s: seq<T>, i: nat)
    requires 0 < i < |s|
  {
    !less(s[i], s[Parent(i)])
  }

  /** No item is less than its parent, among the parents from position k on. */
  ghost predicate HeapFrom<T>(less: (T, T) -> bool, s: seq<T>, k: nat) {
    forall i :: 0 < i < |s| && k <= Parent(i) ==> Ordered(less, s, i)
  }

  /** Position i lies in the subtree rooted at root. */
  predicate Under(root: nat, i: nat) {
    i == root || (i > root && Under(root, Parent(i)))
  }

  /** A heap but for the edge into pos, whose children are also in order with pos's own parent. */
  ghost predicate OneOff<T>(less: (T, T) -> bool, s: seq<T>, k: nat, pos: nat)
    requires pos < |s|
  {
    && (forall i :: 0 < i < |s| && k <= Parent(i) && i != pos ==> Ordered(less, s, i))
    && (forall i :: 0 < i < |s| && Parent(i) == pos && k < pos && k <= Parent(pos) ==> !less(s[i], s[Parent(pos)]))
  }

  lemma SwapKeepsItems<T>(s: seq<T>, i: nat, j: nat, x: T)
    requires i < |s| && j < |s| && i != j
    ensures multiset(s[i := s[j]][j := x]) == multiset(s[i := x])
  {
    assert s[i := s[j]][j := x] == s[i := x][i := s[j]][j := x];
  }

  /** Exchanging a misplaced item with its parent moves the misplaced edge up. */
  lemma SiftdownStep<T(!new)>(less: (T, T) -> bool, s: seq<T>, start: nat, pos: nat)
    requires Preorder(less) && pos < |s|
    requires start < pos && Under(start, pos)
    requires OneOff(less, s, start, pos)
    requires less(s[pos], s[Parent(pos)])
    ensures OneOff(less, s[pos := s[Parent(pos)]][Parent(pos) := s[pos]], start, Parent(pos))
  {
    var up := Parent(pos);
    assert start <= up;
    var t := s[pos := s[up]][up := s[pos]];
    forall i | 0 < i < |t| && start <= Parent(i) && i != up
      ensures Ordered(less, t, i)
    {
      if Parent(i) == up && i != pos { assert Ordered(less, s, i); }
      if Parent(i) != up && Parent(i) != pos { assert Ordered(less, s, i); }
    }
    forall i | 0 < i < |t| && Parent(i) == up && start < up && start <= Parent(up)
      ensures !less(t[i], t[Parent(up)])
    {
      assert Ordered(less, s, up);
      if i != pos { assert Ordered(less, s, i); }
    }
  }

  lemma SiftdownDone<T>(less: (T, T) -> bool, s: seq<T>, start: nat, pos: nat)
    requires pos < |s| && Under(start, pos) && OneOff(less, s, start, pos)
    requires pos > start ==> !less(s[pos], s[Parent(pos)])
    ensures HeapFrom(less, s, start)
  {
    forall i | 0 < i < |s| && start <= Parent(i) ensures Ordered(less, s, i) {
      if i == pos { assert i > start; }
    }
  }

  /** The list while an item sinks: in order below start, and from start on too once the hole has
      moved, the hole holding a copy of the item just moved out of it. */
  ghost predicate Sinking<T>(less: (T, T) -> bool, s: seq<T>, start: nat, pos: nat) {
    forall i :: 0 < i < |s| && start <= Parent(i) && (pos == start ==> Parent(i) != start) ==> Ordered(less, s, i)
  }

  predicate SmallerChild<T>(less: (T, T) -> bool, s: seq<T>, pos: nat, child: nat) {
    && 0 < child < |s| && Parent(child) == pos
    && (forall i :: 0 < i < |s| && Parent(i) == pos ==> !less(s[i], s[child]))
  }

  /** The right child where it is not greater than the left one, else the left one. */
  lemma ChosenChild<T(!new)>(less: (T, T) -> bool, s: seq<T>, pos: nat, child: nat)
    requires Preorder(less)
    requires 2 * pos + 1 < |s|
    requires child == if 2 * pos + 2 < |s| && !less(s[2 * pos + 1], s[2 * pos + 2]) then 2 * pos + 2 else 2 * pos + 1
    ensures SmallerChild(less, s, pos, child)
  {
    forall i | 0 < i < |s| && Parent(i) == pos ensures !less(s[i], s[child]) {
      assert i == 2 * pos + 1 || i == 2 * pos + 2;
    }
  }

  lemma {:induction false} UnderRoot(i: nat)
    ensures Under(0, i)
  {
    if i == 0 {
    } else {
      UnderRoot(Parent(i));
    }
  }

  /** The last item takes the place of the first, which leaves. */
  lemma RemoveRoot<T>(s: seq<T>)
    requires |s| > 1
    ensures multiset(s) == multiset(s[..|s| - 1][0 := s[|s| - 1]]) + multiset{s[0]}
  {
    var n := |s| - 1;
    assert s == [s[0]] + s[1..n] + [s[n]];
    assert s[..n][0 := s[n]] == [s[n]] + s[1..n];
  }

  /** Filling the hole with its smaller child keeps the rest in order. */
  lemma SinkingStep<T(!new)>(less: (T, T) -> bool, s: seq<T>, start: nat, pos: nat, child: nat)
    requires Preorder(less) && pos < |s| && Under(start, pos)
    requires Sinking(less, s, start, pos)
    requires SmallerChild(less, s, pos, child)
    ensures Sinking(less, s[pos := s[child]], start, child)
  {
    var t := s[pos := s[child]];
    forall i | 0 < i < |t| && start <= Parent(i) && child != start
      ensures Ordered(less, t, i)
    {
      if i == pos {
        assert pos != start;
        assert Ordered(less, s, pos) && Ordered(less, s, child);
      } else if Parent(i) != pos {
        assert pos != start || Parent(i) != start;
        assert Ordered(less, s, i);
      }
    }
  }

  /** Where the hole has reached a leaf, any item may be put there but for its parent. */
  lemma SinkingDone<T>(less: (T, T) -> bool, s: seq<T>, start: nat, pos: nat, item: T)
    requires pos < |s| <= 2 * pos + 1 && Under(start, pos)
    requires Sinking(less, s, start, pos)
    ensures OneOff(less, s[pos := item], start, pos)
  {
    var t := s[pos := item];
    forall i | 0 < i < |t| && start <= Parent(i) && i != pos ensures Ordered(less, t, i) {
      assert Parent(i) != pos;
      assert Ordered(less, s, i);
    }
  }

  /** The root of a heap is a minimum. */
  lemma {:induction false} RootIsMinimum<T(!new)>(less: (T, T) -> bool, s: seq<T>, i: nat)
    requires Preorder(less) && HeapFrom(less, s, 0) && i < |s|
    ensures !less(s[i], s[0])
  {
    if i == 0 {
    } else {
      RootIsMinimum(less, s, Parent(i));
      assert Ordered(less, s, i);
    }
  }

  lemma MinimumOfAll<T(!new)>(less: (T, T) -> bool, s: seq<T>)
    requires Preorder(less) && HeapFrom(less, s, 0) && s != []
    ensures forall x :: x in s ==> !less(x, s[0])
  {
    forall x | x in s ensures !less(x, s[0]) {
      var i :| 0 <= i < |s| && s[i] == x;
      RootIsMinimum(less, s, i);
    }
  }

  datatype Error = IndexError

  class Heap<T(!new)> {
    var items: seq<T>
    const less: (T, T) -> bool

    ghost predicate Valid()
      reads this
    {
      Preorder(less) && HeapFrom(less, items, 0)
    }

    constructor (items: seq<T>, less: (T, T) -> bool)
      ensures this.items == items && this.less == less
    {
      this.items := items;
      this.less := less;
    }

    /** Moves the item at pos towards start until its parent is not greater. */
    method Siftdown(start: nat, pos: nat)
      requires Preorder(less) && pos < |items| && Under(start, pos)
      requires OneOff(less, items, start, pos)
      modifies this`items
      ensures HeapFrom(less, items, start)
      ensures |items| == old(|items|) && multiset(items) == multiset(old(items))
    {
      hide Preorder, OneOff, HeapFrom;
      var pos := pos;
      var item := items[pos];
      assert items[pos := item] == items;
      while pos > start
        invariant pos < |items| == old(|items|) && Under(start, pos)
        invariant OneOff(less, items[pos := item], start, pos)
        invariant multiset(items[pos := item]) == multiset(old(items))
      {
        var parentPos := (pos - 1) / 2;
        var parent := items[parentPos];
        ghost var s := items[pos := item];
        if less(item, parent) {
          SiftdownStep(less, s, start, pos);
          SwapKeepsItems(items, pos, parentPos, item);
          items := items[pos := parent];
          assert items[parentPos := item] == s[pos := s[parentPos]][parentPos := s[pos]];
          pos := parentPos;
        } else {
          break;
        }
      }
      items := items[pos := item];
      SiftdownDone(less, items, start, pos);
    }

    /** Restores the order at pos, below which the list is in order. */
    method Siftup(pos: nat)
      requires Preorder(less) && pos < |items|
      requires HeapFrom(less, items, pos + 1)
      modifies this`items
      ensures HeapFrom(less, items, pos)
      ensures |items| == old(|items|) && multiset(items) == multiset(old(items))
    {
      var start, end := pos, |items|;
      var pos := pos;
      var item := items[pos];
      assert items[pos := item] == items;
      assert Sinking(less, items, start, pos);
      hide Preorder, OneOff, HeapFrom, Sinking;
      var child := 2 * pos + 1;
      while child < end
        invariant end == |items| == old(|items|) && pos < end && child == 2 * pos + 1
        invariant Under(start, pos)
        invariant Sinking(less, items, start, pos)
        invariant multiset(items[pos := item]) == multiset(old(items))
        decreases end - pos
      {
        if child + 1 < end && !less(items[child], items[child + 1]) {
          child := child + 1;
        }
        ChosenChild(less, items, pos, child);
        SinkingStep(less, items, start, pos, child);
        SwapKeepsItems(items, pos, child, item);
        items := items[pos := items[child]];
        pos := child;
        child := 2 * pos + 1;
      }
      SinkingDone(less, items, start, pos, item);
      items := items[pos := item];
      Siftdown(start, pos);
    }

    /** Adds an item. */
    method Push(item: T)
      requires Valid()
      modifies this`items
      ensures Valid() && multiset(items) == multiset(old(items) + [item])
    {
      ghost var was := items;
      items := items + [item];
      forall i | 0 < i < |items| && i != |was| ensures Ordered(less, items, i) {
        assert Ordered(less, was, i);
      }
      UnderRoot(|was|);
      Siftdown(0, |items| - 1);
    }

    /** Removes and returns a minimum. */
    method Pop() returns (r: Result<T, Error>)
      requires Valid()
      modifies this`items
      ensures Valid()
      ensures r.Err? <==> old(items) == []
      ensures r.Err? ==> items == old(items)
      ensures r.Ok? ==> multiset(old(items)) == multiset(items) + multiset{r.value}
      ensures r.Ok? ==> forall x :: x in old(items) ==> !less(x, r.value)
    {
      if |items| == 0 { return Err(IndexError); }
      MinimumOfAll(less, items);
      var item := items[0];
      var n := |items| - 1;
      var last := items[n];
      ghost var was := items;
      items := items[..n];
      if n != 0 {
        RemoveRoot(was);
        items := items[0 := last];
        forall i | 0 < i < |items| && 1 <= Parent(i) ensures Ordered(less, items, i) {
          assert Ordered(less, was, i);
        }
        Siftup(0);
      }
      r := Ok(item);
    }

    /** Rearranges any list into a heap. */
    method Heapify()
      requires Preorder(less)
      modifies this`items
      ensures Valid() && |items| == old(|items|) && multiset(items) == multiset(old(items))
    {
      var i := |items| / 2;
      while i > 0
        invariant |items| == old(|items|) && 0 <= i <= |items| / 2
        invariant HeapFrom(less, items, i)
        invariant multiset(items) == multiset(old(items))
      {
        i := i - 1;
        Siftup(i);
      }
    }
  }

  // ---------- sorting ----------

  ghost predicate Sorted<T>(less: (T, T) -> bool, s: seq<T>) {
    forall i, j :: 0 <= i < j < |s| ==> !less(s[j], s[i])
  }

  /** Every item of rest may follow every item of s. */
  ghost predicate Precedes<T>(less: (T, T) -> bool, s: seq<T>, rest: seq<T>) {
    forall i, j :: 0 <= i < |s| && 0 <= j < |rest| ==> !less(rest[j], s[i])
  }

  lemma TakeMinimum<T(!new)>(less: (T, T) -> bool, s: seq<T>, rest: seq<T>, x: T, left: seq<T>)
    requires Sorted(less, s) && Precedes(less, s, rest)
    requires multiset(rest) == multiset(left) + multiset{x}
    requires forall y :: y in rest ==> !less(y, x)
    ensures Sorted(less, s + [x]) && Precedes(less, s + [x], left)
    ensures |left| < |rest|
  {
    assert |multiset(rest)| == |multiset(left)| + 1;
    assert x in multiset(rest);
    var k :| 0 <= k < |rest| && rest[k] == x;
    forall j | 0 <= j < |left| ensures left[j] in rest {
      assert left[j] in multiset(rest);
    }
  }

  /** Heapifying a list and popping it empty sorts it. */
  method HeapSort<T(!new)>(list: seq<T>, less: (T, T) -> bool) returns (sorted: seq<T>)
    requires Preorder(less)
    ensures Sorted(less, sorted) && multiset(sorted) == multiset(list)
  {
    var heap := new Heap(list, less);
    heap.Heapify();
    sorted := [];
    while |heap.items| > 0
      invariant fresh(heap) && heap.less == less && heap.Valid()
      invariant multiset(sorted) + multiset(heap.items) == multiset(list)
      invariant Sorted(less, sorted) && Precedes(less, sorted, heap.items)
      decreases |heap.items|
    {
      ghost var was := heap.items;
      var r := heap.Pop();
      TakeMinimum(less, sorted, was, r.value, heap.items);
      sorted := sorted + [r.value];
    }
  }
}
