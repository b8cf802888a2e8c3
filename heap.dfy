/**
 * The binary min-heap of (vertex, weight) items used by both solvers: a slice grown and
 * shrunk at its end, kept heap-ordered by sifting up after a push and down after a pop.
 */
module Heaps {
  import opened Cells

  datatype Item = Item(vertex: Coordinates, weight: int)

  /** The parent slot of slot `j`, with Go's truncating division: slot 0 is its own parent. */
  function Parent(j: nat): (p: nat)
    ensures j > 0 ==> p < j
  {
    if j == 0 then 0 else (j - 1) / 2
  }

  /** The first `n` items are heap-ordered: no item weighs less than its parent. */
  ghost predicate HeapOrdered(s: seq<Item>, n: nat)
    requires n <= |s|
  {
    forall k :: 0 < k < n ==> s[Parent(k)].weight <= s[k].weight
  }

  /** In a heap-ordered prefix the first item weighs least. */
  lemma {:induction false} RootIsMinimal(s: seq<Item>, n: nat, k: nat)
    requires n <= |s| && HeapOrdered(s, n) && k < n
    ensures s[0].weight <= s[k].weight
    decreases k
  {
    if k > 0 {
      RootIsMinimal(s, n, Parent(k));
    }
  }

  /** The two slots whose parent is `i` are 2i+1 and 2i+2. */
  lemma ChildSlots(i: nat, c: nat)
    ensures c > 0 && Parent(c) == i <==> c == 2 * i + 1 || c == 2 * i + 2
  {
  }

  /** Every slot other than `j` is ordered with its parent. */
  ghost predicate OrderedBut(s: seq<Item>, j: nat)
  {
    forall k :: 0 < k < |s| && k != j ==> s[Parent(k)].weight <= s[k].weight
  }

  /** Within the first `n` slots, every slot whose parent is not `i` is ordered with it. */
  ghost predicate OrderedAbove(s: seq<Item>, n: nat, i: nat)
    requires n <= |s|
  {
    forall k :: 0 < k < n && Parent(k) != i ==> s[Parent(k)].weight <= s[k].weight
  }

  /** The parent of `i` weighs no more than the children of `i` (within the first `n` slots). */
  ghost predicate BridgesChildren(s: seq<Item>, n: nat, i: nat)
    requires n <= |s| && (i == 0 || i < n)
  {
    i > 0 ==> forall c :: 0 < c < n && Parent(c) == i ==> s[Parent(i)].weight <= s[c].weight
  }

  lemma UpStep(s: seq<Item>, j: nat)
    requires j < |s| && OrderedBut(s, j) && BridgesChildren(s, |s|, j)
    requires Parent(j) != j && s[j].weight < s[Parent(j)].weight
    ensures var i := Parent(j); var t := s[i := s[j]][j := s[i]];
      OrderedBut(t, i) && BridgesChildren(t, |t|, i)
  {
    var i := Parent(j);
    var t := s[i := s[j]][j := s[i]];
    forall k | 0 < k < |t| && k != i
      ensures t[Parent(k)].weight <= t[k].weight
    {
      if Parent(k) == j {
        assert s[i].weight <= s[k].weight;
      } else if k != j && Parent(k) == i {
        assert s[i].weight <= s[k].weight;
      }
    }
    if i > 0 {
      assert s[Parent(i)].weight <= s[i].weight;
      forall c | 0 < c < |t| && Parent(c) == i
        ensures t[Parent(i)].weight <= t[c].weight
      {
        if c != j {
          assert s[i].weight <= s[c].weight;
        }
      }
    }
  }

  lemma DownStep(s: seq<Item>, n: nat, i: nat, j: nat)
    requires n <= |s| && i < n && j < n
    requires OrderedAbove(s, n, i) && BridgesChildren(s, n, i)
    requires j == 2 * i + 1 || j == 2 * i + 2
    requires j + 1 < n && j == 2 * i + 1 ==> s[j].weight <= s[j + 1].weight
    requires j == 2 * i + 2 ==> s[j].weight < s[j - 1].weight
    requires s[j].weight < s[i].weight
    ensures var t := s[i := s[j]][j := s[i]];
      OrderedAbove(t, n, j) && BridgesChildren(t, n, j)
  {
    var t := s[i := s[j]][j := s[i]];
    assert Parent(j) == i && i < j;
    forall k | 0 < k < n && Parent(k) != j
      ensures t[Parent(k)].weight <= t[k].weight
    {
      if k == j {
        assert t[Parent(k)] == s[j] && t[k] == s[i];
      } else if k == i {
        assert Parent(k) < i && t[Parent(k)] == s[Parent(i)] && t[k] == s[j];
      } else if Parent(k) == i {
        ChildSlots(i, k);
        assert t[Parent(k)] == s[j] && t[k] == s[k];
        DownSibling(s, n, i, j, k);
      } else {
        assert t[Parent(k)] == s[Parent(k)] && t[k] == s[k];
      }
    }
    forall c | 0 < c < n && Parent(c) == j
      ensures t[Parent(j)].weight <= t[c].weight
    {
      assert c > j && t[Parent(j)] == s[j] && t[c] == s[c];
    }
  }

  /** The child of `i` chosen by the sift-down weighs no more than its sibling. */
  lemma DownSibling(s: seq<Item>, n: nat, i: nat, j: nat, k: nat)
    requires n <= |s| && j < n && k < n && k != j
    requires j == 2 * i + 1 || j == 2 * i + 2
    requires k == 2 * i + 1 || k == 2 * i + 2
    requires j + 1 < n && j == 2 * i + 1 ==> s[j].weight <= s[j + 1].weight
    requires j == 2 * i + 2 ==> s[j].weight < s[j - 1].weight
    ensures s[j].weight <= s[k].weight
  {
  }

  lemma DownDone(s: seq<Item>, n: nat, i: nat, j: nat)
    requires n <= |s| && (i == 0 || i < n)
    requires OrderedAbove(s, n, i)
    requires 2 * i + 1 >= n || ((j == 2 * i + 1 || j == 2 * i + 2) && j < n && s[i].weight <= s[j].weight
      && (j + 1 < n && j == 2 * i + 1 ==> s[j].weight <= s[j + 1].weight)
      && (j == 2 * i + 2 ==> s[j].weight < s[j - 1].weight))
    ensures HeapOrdered(s, n)
  {
    forall k | 0 < k < n && Parent(k) == i ensures s[i].weight <= s[k].weight {
      ChildSlots(i, k);
    }
  }

  class Heap {
    var items: seq<Item>

    ghost predicate Valid()
      reads this
    {
      HeapOrdered(items, |items|)
    }

    /** An empty heap. */
    constructor ()
      ensures items == [] && Valid()
    {
      items := [];
    }

    /** The number of stored items. */
    function Len(): (n: nat)
      reads this
      ensures n == |multiset(items)|
    {
      |items|
    }

    predicate Less(i: nat, j: nat)
      reads this
      requires i < |items| && j < |items|
    {
      items[i].weight < items[j].weight
    }

    method Swap(i: nat, j: nat)
      requires i < |items| && j < |items|
      modifies this
      ensures items == old(items)[i := old(items)[j]][j := old(items)[i]]
      ensures multiset(items) == multiset(old(items))
    {
      items := items[i := items[j]][j := items[i]];
    }

    /** Appends `x` at the end of the slice. */
    method Append(x: Item)
      modifies this
      ensures items == old(items) + [x]
    {
      items := items + [x];
    }

    /** Removes and returns the last item of the slice. */
    method RemoveLast() returns (x: Item)
      requires |items| > 0
      modifies this
      ensures old(items) == items + [x]
    {
      x := items[|items| - 1];
      items := items[..|items| - 1];
    }

    /** Moves the item at slot `j0` towards the root until its parent weighs no more. */
    method Up(j0: nat)
      requires j0 < |items|
      requires OrderedBut(items, j0) && BridgesChildren(items, |items|, j0)
      modifies this
      ensures Valid()
      ensures multiset(items) == multiset(old(items))
    {
      var j: nat := j0;
      while true
        invariant j < |items|
        invariant OrderedBut(items, j) && BridgesChildren(items, |items|, j)
        invariant multiset(items) == multiset(old(items))
        decreases j
      {
        var i := Parent(j);
        if i == j || !Less(j, i) {
          break;
        }
        UpStep(items, j);
        Swap(i, j);
        j := i;
      }
    }

    /**
     * Moves the root item of the first `n` slots away from the root until no child weighs
     * less; slots from `n` on are left alone.
     */
    method Down(n: nat)
      requires n <= |items|
      requires OrderedAbove(items, n, 0)
      modifies this
      ensures |items| == |old(items)| && items[n..] == old(items)[n..]
      ensures HeapOrdered(items, n)
      ensures multiset(items) == multiset(old(items))
    {
      var i := 0;
      while true
        invariant i == 0 || i < n
        invariant |items| == |old(items)| && items[n..] == old(items)[n..]
        invariant OrderedAbove(items, n, i) && BridgesChildren(items, n, i)
        invariant multiset(items) == multiset(old(items))
        decreases n - i
      {
        var j1 := 2 * i + 1;
        if j1 >= n {
          DownDone(items, n, i, i);
          break;
        }
        var j := j1;
        if j1 + 1 < n && Less(j1 + 1, j1) {
          j := j1 + 1;
        }
        if !Less(j, i) {
          DownDone(items, n, i, j);
          break;
        }
        DownStep(items, n, i, j);
        ghost var s := items;
        Swap(i, j);
        assert items[n..] == s[n..];
        i := j;
      }
    }

    /** Stores one more item. */
    method Push(item: Item)
      requires Valid()
      modifies this
      ensures Valid()
      ensures multiset(items) == multiset(old(items)) + multiset{item}
      ensures Len() == old(Len()) + 1
    {
      Append(item);
      Up(|items| - 1);
    }

    /** Removes and returns an item of least weight. */
    method Pop() returns (item: Item)
      requires Valid() && |items| > 0
      modifies this
      ensures Valid()
      ensures item in multiset(old(items))
      ensures forall x :: x in multiset(old(items)) ==> item.weight <= x.weight
      ensures multiset(items) == multiset(old(items)) - multiset{item}
      ensures Len() == old(Len()) - 1
    {
      forall x | x in multiset(items) ensures items[0].weight <= x.weight {
        var k :| 0 <= k < |items| && items[k] == x;
        RootIsMinimal(items, |items|, k);
      }
      ghost var least := items[0];
      var n := |items| - 1;
      Swap(0, n);
      Down(n);
      item := RemoveLast();
      assert item == least;
    }
  }

  /** Two pops with no push in between come out in non-decreasing weight. */
  method PopTwice(h: Heap) returns (a: Item, b: Item)
    requires h.Valid() && h.Len() >= 2
    modifies h
    ensures a.weight <= b.weight
  {
    a := h.Pop();
    b := h.Pop();
  }

  /** Pushing weights 5, 1 and 3 into an empty heap, three pops yield 1, 3 and 5. */
  method PopOrderExample() returns (weights: seq<int>)
    ensures weights == [1, 3, 5]
  {
    var h := new Heap();
    var origin := Coordinates(0, 0);
    h.Push(Item(origin, 5));
    h.Push(Item(origin, 1));
    h.Push(Item(origin, 3));
    var a := h.Pop();
    var b := h.Pop();
    var c := h.Pop();
    weights := [a.weight, b.weight, c.weight];
  }
}
