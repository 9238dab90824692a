/** The array-backed binary min-heap of tree nodes keyed on frequency
    (priority_queue.c), with a fixed capacity and a silent no-op on a full
    insert. */
module PriorityQueue {
  import opened HuffmanTypes

  function Parent(i: int): int {
    (i - 1) / 2
  }

  function Left(i: int): int {
    2 * i + 1
  }

  function Right(i: int): int {
    (i + 1) * 2
  }

  /** Slot `c` holds a child of slot `p`. */
  predicate IsChild(p: int, c: int) {
    c == 2 * p + 1 || c == 2 * p + 2
  }

  /** The two children of a node sit side by side and have that node as
      their parent, and every other node is a child of its parent. */
  lemma {:induction false} Family(i: int)
    requires i >= 0
    ensures Right(i) == Left(i) + 1
    ensures Parent(Left(i)) == i && Parent(Right(i)) == i
    ensures IsChild(i, Left(i)) && IsChild(i, Right(i))
    ensures i > 0 ==> 0 <= Parent(i) < i && IsChild(Parent(i), i)
  {
  }

  /** Min-heap order on frequencies: no node weighs less than its parent. */
  predicate Ordered(s: seq<Tree>) {
    forall p, c :: 0 <= p < c < |s| && IsChild(p, c) ==> s[p].freq <= s[c].freq
  }

  /** Heap order during sift-up with the moving node at `k`: every pair is in
      order except possibly `k` against its parent, and `k`'s parent is no
      heavier than `k`'s children. */
  predicate OrderedAbove(s: seq<Tree>, k: int) {
    && 0 <= k < |s|
    && (forall p, c :: 0 <= p < c < |s| && IsChild(p, c) && c != k ==> s[p].freq <= s[c].freq)
    && (forall g, c :: 0 <= g < k < c < |s| && IsChild(g, k) && IsChild(k, c) ==> s[g].freq <= s[c].freq)
  }

  /** Heap order during sift-down with the moving node at `k`: every pair is
      in order except possibly `k` against its children, and `k`'s parent is
      no heavier than `k`'s children. */
  predicate OrderedBelow(s: seq<Tree>, k: int) {
    && 0 <= k
    && (forall p, c :: 0 <= p < c < |s| && IsChild(p, c) && p != k ==> s[p].freq <= s[c].freq)
    && (forall g, c :: 0 <= g < k < c < |s| && IsChild(g, k) && IsChild(k, c) ==> s[g].freq <= s[c].freq)
  }

  /** The root of an ordered heap weighs no more than any node. */
  lemma {:induction false} RootIsMin(s: seq<Tree>, i: int)
    requires Ordered(s) && 0 <= i < |s|
    ensures s[0].freq <= s[i].freq
    decreases i
  {
    if i > 0 {
      Family(i);
      RootIsMin(s, Parent(i));
    }
  }

  /** Moving the last node into the root slot and dropping the last slot
      removes exactly the old root. */
  lemma {:induction false} DropRoot(s: seq<Tree>)
    requires |s| > 0
    ensures multiset(s[0 := s[|s| - 1]][..|s| - 1]) == multiset(s) - multiset{s[0]}
  {
    var n := |s|;
    if n > 1 {
      var t := s[0 := s[n - 1]][..n - 1];
      assert s == [s[0]] + s[1..n - 1] + [s[n - 1]];
      assert t == [s[n - 1]] + s[1..n - 1];
    }
  }

  /** Swapping two slots swaps them in any prefix holding both, and leaves
      the rest alone. */
  lemma {:induction false} SwapSlices(a: seq<Tree>, n: int, i: int, j: int)
    requires 0 <= i < n && 0 <= j < n && n <= |a|
    ensures a[i := a[j]][j := a[i]][..n] == a[..n][i := a[j]][j := a[i]]
    ensures a[i := a[j]][j := a[i]][n..] == a[n..]
  {
  }

  /** Swapping two slots permutes the nodes. */
  lemma {:induction false} SwapPermutes(s: seq<Tree>, i: int, j: int)
    requires 0 <= i < |s| && 0 <= j < |s|
    ensures multiset(s[i := s[j]][j := s[i]]) == multiset(s)
  {
    if i != j {
      var t := s[i := s[j]];
      assert multiset(t) == multiset(s) - multiset{s[i]} + multiset{s[j]};
      assert multiset(t[j := s[i]]) == multiset(t) - multiset{s[j]} + multiset{s[i]};
    }
  }

  /** One sift-up step (node `i` lighter than its parent `p`) keeps the
      sift-up invariant, one level higher. */
  lemma {:induction false} SwapUp(s: seq<Tree>, i: int, p: int)
    requires OrderedAbove(s, i) && 0 <= p < i && IsChild(p, i)
    requires s[i].freq < s[p].freq
    ensures OrderedAbove(s[i := s[p]][p := s[i]], p)
  {
    var t := s[i := s[p]][p := s[i]];
    forall a, c | 0 <= a < c < |t| && IsChild(a, c) && c != p
      ensures t[a].freq <= t[c].freq
    {
      if c == i {
        assert t[a] == s[i] && t[c] == s[p];
      } else if a == i {
        assert t[a] == s[p] && t[c] == s[c];
      } else if a == p {
        assert t[a] == s[i] && t[c] == s[c];
        assert s[p].freq <= s[c].freq;
      } else {
        assert t[a] == s[a] && t[c] == s[c];
      }
    }
    forall g, c | 0 <= g < p < c < |t| && IsChild(g, p) && IsChild(p, c)
      ensures t[g].freq <= t[c].freq
    {
      assert t[g] == s[g];
      if c == i {
        assert t[c] == s[p];
      } else {
        assert t[c] == s[c];
        assert s[p].freq <= s[c].freq;
      }
    }
  }

  /** One sift-down step (node `i` swapped with its lighter child `c`) keeps
      the sift-down invariant, one level lower. */
  lemma {:induction false} SwapDown(s: seq<Tree>, i: int, c: int)
    requires OrderedBelow(s, i) && 0 <= i < c < |s| && IsChild(i, c)
    requires Left(i) < |s| ==> s[c].freq <= s[Left(i)].freq
    requires Right(i) < |s| ==> s[c].freq <= s[Right(i)].freq
    requires s[c].freq < s[i].freq
    ensures OrderedBelow(s[i := s[c]][c := s[i]], c)
  {
    var t := s[i := s[c]][c := s[i]];
    forall a, d | 0 <= a < d < |t| && IsChild(a, d) && a != c
      ensures t[a].freq <= t[d].freq
    {
      if d == c {
        assert t[a] == s[c] && t[d] == s[i];
      } else if a == i {
        assert t[a] == s[c] && t[d] == s[d];
      } else if d == i {
        assert t[a] == s[a] && t[d] == s[c];
        assert s[a].freq <= s[c].freq;
      } else {
        assert t[a] == s[a] && t[d] == s[d];
      }
    }
    forall g, d | 0 <= g < c < d < |t| && IsChild(g, c) && IsChild(c, d)
      ensures t[g].freq <= t[d].freq
    {
      assert t[g] == s[c] && t[d] == s[d];
    }
  }

  /** When the moving node is the root or no lighter than its parent, the
      sift-up invariant is heap order. */
  lemma {:induction false} UpDone(s: seq<Tree>, i: int)
    requires OrderedAbove(s, i)
    requires i > 0 ==> s[Parent(i)].freq <= s[i].freq
    ensures Ordered(s)
  {
    Family(i);
  }

  /** When neither child is lighter, the sift-down invariant is heap order. */
  lemma {:induction false} DownDone(s: seq<Tree>, i: int)
    requires OrderedBelow(s, i)
    requires Left(i) < |s| ==> s[i].freq <= s[Left(i)].freq
    requires Right(i) < |s| ==> s[i].freq <= s[Right(i)].freq
    ensures Ordered(s)
  {
  }

  class Heap {
    const ary: array<Tree>
    const arySize: int
    var size: int

    ghost predicate Valid()
      reads this, ary
    {
      ary.Length == arySize && 0 <= size <= arySize && Ordered(ary[..size])
    }

    /** heap_create: an empty heap with room for `n` nodes. */
    constructor (n: int)
      requires n >= 0
      ensures arySize == n && size == 0 && fresh(ary) && Valid()
    {
      ary := new Tree[n];
      arySize := n;
      size := 0;
    }

    /** swap of two slots. */
    method Swap(i: int, j: int)
      requires 0 <= i < ary.Length && 0 <= j < ary.Length
      modifies ary
      ensures ary[..] == old(ary[..])[i := old(ary[j])][j := old(ary[i])]
    {
      ary[i], ary[j] := ary[j], ary[i];
    }

    /** heap_sift_up: swap the node at `i` with its parent while it is
      lighter than the parent. */
    method SiftUp(i: int)
      requires 0 <= size <= ary.Length
      requires OrderedAbove(ary[..size], i)
      modifies ary
      ensures Ordered(ary[..size])
      ensures multiset(ary[..size]) == old(multiset(ary[..size]))
      ensures ary[size..] == old(ary[size..])
      decreases i
    {
      if i == 0 {
        UpDone(ary[..size], i);
        return;
      }
      Family(i);
      var p := Parent(i);
      if ary[i].freq < ary[p].freq {
        ghost var a := ary[..];
        Swap(i, p);
        SwapSlices(a, size, i, p);
        ghost var t := a[..size][i := a[p]][p := a[i]];
        assert ary[..size] == t && ary[size..] == a[size..];
        SwapUp(a[..size], i, p);
        SwapPermutes(a[..size], i, p);
        SiftUp(p);
      } else {
        UpDone(ary[..size], i);
      }
    }

    /** heap_sift_down: swap the node at `i` with its lighter child (the left
      one on a tie) while that child is lighter. */
    method SiftDown(i: int)
      requires 0 <= size <= ary.Length
      requires 0 <= i && OrderedBelow(ary[..size], i)
      modifies ary
      ensures Ordered(ary[..size])
      ensures multiset(ary[..size]) == old(multiset(ary[..size]))
      ensures ary[size..] == old(ary[size..])
      decreases size - i
    {
      var l, r := Left(i), Right(i);
      var lowest := i;
      if l < size && ary[lowest].freq > ary[l].freq {
        lowest := l;
      }
      if r < size && ary[lowest].freq > ary[r].freq {
        lowest := r;
      }
      if lowest != i {
        ghost var a := ary[..];
        Swap(i, lowest);
        SwapSlices(a, size, i, lowest);
        ghost var t := a[..size][i := a[lowest]][lowest := a[i]];
        assert ary[..size] == t && ary[size..] == a[size..];
        SwapDown(a[..size], i, lowest);
        SwapPermutes(a[..size], i, lowest);
        SiftDown(lowest);
      } else {
        DownDone(ary[..size], i);
      }
    }

    /** heap_top: the node in the first slot. */
    method Top() returns (node: Tree)
      requires 0 < ary.Length
      requires 0 <= size <= ary.Length && Ordered(ary[..size])
      ensures node == ary[0]
      ensures 0 < size ==> forall i :: 0 <= i < size ==> node.freq <= ary[i].freq
    {
      node := ary[0];
      if 0 < size {
        forall i | 0 <= i < size
          ensures node.freq <= ary[i].freq
        {
          RootIsMin(ary[..size], i);
        }
      }
    }

    /** heap_extract: take the root out, move the last node into its slot and
      sift it down. */
    method Extract() returns (node: Tree)
      requires Valid() && size > 0
      modifies this, ary
      ensures Valid() && size == old(size) - 1
      ensures node == old(ary[0])
      ensures node in old(multiset(ary[..size]))
      ensures forall i :: 0 <= i < old(size) ==> node.freq <= old(ary[i]).freq
      ensures multiset(ary[..size]) == old(multiset(ary[..size])) - multiset{node}
    {
      ghost var s := ary[..size];
      forall i | 0 <= i < size
        ensures ary[0].freq <= ary[i].freq
      {
        RootIsMin(s, i);
      }
      node := ary[0];
      ary[0] := ary[size - 1];
      size := size - 1;
      ghost var t := ary[..size];
      assert t == s[0 := s[|s| - 1]][..|s| - 1];
      DropRoot(s);
      assert OrderedBelow(t, 0) by {
        forall p, c | 0 <= p < c < |t| && IsChild(p, c) && p != 0
          ensures t[p].freq <= t[c].freq
        {
          assert t[p] == s[p] && t[c] == s[c];
        }
      }
      SiftDown(0);
    }

    /** heap_insert: nothing when full; otherwise put the node in the first
      free slot and sift it up. */
    method Insert(node: Tree)
      requires Valid()
      modifies this, ary
      ensures Valid()
      ensures old(size) == arySize ==> size == old(size) && ary[..] == old(ary[..])
      ensures old(size) < arySize ==>
                && size == old(size) + 1
                && multiset(ary[..size]) == old(multiset(ary[..size])) + multiset{node}
    {
      if size == arySize {
        return;
      }
      var i := size;
      ghost var s := ary[..size];
      ary[i] := node;
      size := size + 1;
      assert ary[..size] == s + [node];
      SiftUp(i);
    }
  }

  /** heap_empty: true for a missing heap or one with no nodes. */
  predicate IsEmpty(h: Heap?)
    reads h
  {
    h == null || h.size == 0
  }

  /** heap_size: 0 for a missing heap. */
  function Size(h: Heap?): (n: int)
    reads h
    ensures h == null ==> n == 0
    ensures h != null ==> n == h.size
    ensures (h != null && h.size >= 0) ==> (n == 0 <==> IsEmpty(h))
  {
    if h == null then 0 else h.size
  }
}
