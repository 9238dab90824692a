/** Building the code tree from the frequency table (huffman_tree.c:27-68):
    one leaf per symbol that occurs, then repeated extract-two/merge through
    the min-heap until one tree is left. */
module HuffmanTree {
  import opened Bytes
  import opened HuffmanTypes
  import opened PriorityQueue

  /** The leaves init_heap inserts after looking at symbols 0 .. n-1: one per
      symbol with a nonzero frequency, in symbol order. */
  function Leaves(freq: seq<nat>, n: nat): (ls: seq<Tree>)
    requires |freq| == ALPH_SIZE && n <= ALPH_SIZE
    ensures |ls| <= n
    ensures forall t :: t in ls ==> t.Leaf? && t.freq > 0
  {
    if n == 0 then []
    else Leaves(freq, n - 1) + (if freq[n - 1] > 0 then [LeafOf(Tag(n - 1, freq[n - 1]))] else [])
  }

  /** The symbols among 0 .. n-1 with a nonzero frequency, in increasing order. */
  function NonZero(freq: seq<nat>, n: nat): (syms: seq<Byte>)
    requires |freq| == ALPH_SIZE && n <= ALPH_SIZE
  {
    if n == 0 then []
    else NonZero(freq, n - 1) + (if freq[n - 1] > 0 then [(n - 1) as Byte] else [])
  }

  /** The sum of the frequencies of symbols 0 .. n-1. */
  function Total(freq: seq<nat>, n: nat): nat
    requires |freq| == ALPH_SIZE && n <= ALPH_SIZE
  {
    if n == 0 then 0 else Total(freq, n - 1) + freq[n - 1]
  }

  lemma {:induction false} NonZeroMembers(freq: seq<nat>, n: nat, x: Byte)
    requires |freq| == ALPH_SIZE && n <= ALPH_SIZE
    ensures x in NonZero(freq, n) <==> x as nat < n && freq[x as nat] > 0
  {
    if n > 0 {
      NonZeroMembers(freq, n - 1, x);
      NatByte(n - 1);
      var last: seq<Byte> := if freq[n - 1] > 0 then [(n - 1) as Byte] else [];
      assert NonZero(freq, n) == NonZero(freq, n - 1) + last;
      assert x in last <==> x as nat == n - 1 && freq[n - 1] > 0;
    }
  }

  /** Strictly increasing, so every symbol occurs at most once. */
  lemma {:induction false} NonZeroIncreasing(freq: seq<nat>, n: nat)
    requires |freq| == ALPH_SIZE && n <= ALPH_SIZE
    ensures forall i, j :: 0 <= i < j < |NonZero(freq, n)| ==>
              NonZero(freq, n)[i] as nat < NonZero(freq, n)[j] as nat
  {
    if n > 0 {
      NonZeroIncreasing(freq, n - 1);
      var prev, s := NonZero(freq, n - 1), NonZero(freq, n);
      if freq[n - 1] > 0 {
        NatByte(n - 1);
        assert s == prev + [(n - 1) as Byte];
        forall i, j | 0 <= i < j < |s|
          ensures s[i] as nat < s[j] as nat
        {
          if j == |prev| {
            assert s[i] == prev[i];
            NonZeroMembers(freq, n - 1, prev[i]);
          }
        }
      }
    }
  }

  /** No leaves at all exactly when every frequency is 0. */
  lemma {:induction false} LeavesEmpty(freq: seq<nat>, n: nat)
    requires |freq| == ALPH_SIZE && n <= ALPH_SIZE
    ensures Leaves(freq, n) == [] <==> forall s :: 0 <= s < n ==> freq[s] == 0
  {
    if n > 0 {
      LeavesEmpty(freq, n - 1);
    }
  }

  // ---------------------------------------------------------------------
  // Forests: the trees held by the heap while the code tree is built.

  function SumFreq(fs: seq<Tree>): nat {
    if fs == [] then 0 else SumFreq(fs[..|fs| - 1]) + fs[|fs| - 1].freq
  }

  function AllSyms(fs: seq<Tree>): seq<Byte> {
    if fs == [] then [] else AllSyms(fs[..|fs| - 1]) + Syms(fs[|fs| - 1])
  }

  lemma {:induction false} ForestAppend(a: seq<Tree>, b: seq<Tree>)
    ensures SumFreq(a + b) == SumFreq(a) + SumFreq(b)
    ensures AllSyms(a + b) == AllSyms(a) + AllSyms(b)
    decreases |b|
  {
    if b == [] {
      assert a + b == a;
    } else {
      var n := |b| - 1;
      ForestAppend(a, b[..n]);
      assert (a + b)[..|a + b| - 1] == a + b[..n];
      assert (a + b)[|a + b| - 1] == b[n];
    }
  }

  lemma {:induction false} ForestOne(t: Tree)
    ensures SumFreq([t]) == t.freq && AllSyms([t]) == Syms(t)
  {
    assert [t][..0] == [];
  }

  /** The sequence with the first occurrence of `x` taken out. */
  function Without(fs: seq<Tree>, x: Tree): (r: seq<Tree>)
    requires x in fs
    ensures multiset(r) == multiset(fs) - multiset{x}
    ensures forall t :: t in r ==> t in fs
  {
    assert fs == [fs[0]] + fs[1..];
    if fs[0] == x then fs[1..] else [fs[0]] + Without(fs[1..], x)
  }

  /** Taking a tree out removes its weight from the forest. */
  lemma {:induction false} WithoutSum(fs: seq<Tree>, x: Tree)
    requires x in fs
    ensures SumFreq(fs) == SumFreq(Without(fs, x)) + x.freq
  {
    ForestCons(fs);
    if fs[0] != x {
      WithoutSum(fs[1..], x);
      WithoutCons(fs, x);
    }
  }

  /** Taking a tree out removes its symbols from the forest. */
  lemma {:induction false} WithoutSyms(fs: seq<Tree>, x: Tree)
    requires x in fs
    ensures multiset(AllSyms(fs)) == multiset(AllSyms(Without(fs, x))) + multiset(Syms(x))
  {
    ForestCons(fs);
    if fs[0] != x {
      WithoutSyms(fs[1..], x);
      WithoutCons(fs, x);
      Regroup(AllSyms(fs), Syms(fs[0]), AllSyms(fs[1..]), AllSyms(Without(fs[1..], x)), Syms(x));
    } else {
      MultisetConcat(Syms(fs[0]), AllSyms(fs[1..]));
    }
  }

  lemma {:induction false} MultisetConcat<T>(a: seq<T>, b: seq<T>)
    ensures multiset(a + b) == multiset(b) + multiset(a)
  {
  }

  lemma {:induction false} MultisetSnoc<T>(s: seq<T>, x: T, t: seq<T>)
    requires t == s + [x]
    ensures multiset(t) == multiset(s) + multiset{x}
  {
  }

  lemma {:induction false} Regroup<T>(all: seq<T>, a: seq<T>, r: seq<T>, w: seq<T>, x: seq<T>)
    requires all == a + r && multiset(r) == multiset(w) + multiset(x)
    ensures multiset(all) == multiset(a + w) + multiset(x)
  {
  }

  lemma {:induction false} ForestCons(fs: seq<Tree>)
    requires fs != []
    ensures SumFreq(fs) == fs[0].freq + SumFreq(fs[1..])
    ensures AllSyms(fs) == Syms(fs[0]) + AllSyms(fs[1..])
  {
    assert fs == [fs[0]] + fs[1..];
    ForestAppend([fs[0]], fs[1..]);
    ForestOne(fs[0]);
  }

  lemma {:induction false} WithoutCons(fs: seq<Tree>, x: Tree)
    requires x in fs && fs[0] != x
    ensures SumFreq(Without(fs, x)) == fs[0].freq + SumFreq(Without(fs[1..], x))
    ensures AllSyms(Without(fs, x)) == Syms(fs[0]) + AllSyms(Without(fs[1..], x))
  {
    ForestCons(Without(fs, x));
    assert Without(fs, x)[1..] == Without(fs[1..], x);
  }

  // ---------------------------------------------------------------------
  // The depth bound: a tree the merge loop builds is Fibonacci-heavy.

  function Fib(n: nat): nat {
    if n < 2 then n else Fib(n - 1) + Fib(n - 2)
  }

  lemma {:induction false} FibMono(m: nat, n: nat)
    requires m <= n
    ensures Fib(m) <= Fib(n)
    decreases n
  {
    if m < n {
      FibMono(m, n - 1);
    }
  }

  function Pow2(k: nat): nat {
    if k == 0 then 1 else 2 * Pow2(k - 1)
  }

  lemma {:induction false} FibDoubles(k: nat)
    ensures Fib(2 * k + 2) >= Pow2(k)
  {
    if k > 0 {
      FibDoubles(k - 1);
      FibMono(2 * k, 2 * k + 1);
    }
  }

  /** Every subtree weighs at least Fib(height + 2). */
  predicate FibHeavy(t: Tree) {
    && Fib(Height(t) + 2) <= t.freq
    && (t.Node? ==> FibHeavy(t.left) && FibHeavy(t.right))
  }

  /** A Fibonacci-heavy tree whose weight fits in `unsigned` is at most 63
      deep, so its codes fit the 64 characters of a code-table row. */
  lemma {:induction false} ShallowTree(t: Tree)
    requires FibHeavy(t) && t.freq <= UINT_MAX
    ensures Height(t) < 64
  {
    FibBelow(Height(t) + 2);
  }

  /** Fib(66) exceeds UINT_MAX. */
  lemma {:induction false} FibBelow(n: nat)
    requires Fib(n) <= UINT_MAX
    ensures n < 66
  {
    var k := 32;
    FibDoubles(k);
    TwoTo32();
    if n >= 2 * k + 2 {
      FibMono(2 * k + 2, n);
      assert false;
    }
  }

  lemma {:induction false} Pow2Add(a: nat, b: nat)
    ensures Pow2(a + b) == Pow2(a) * Pow2(b)
    decreases a
  {
    if a > 0 {
      Pow2Add(a - 1, b);
    }
  }

  lemma {:induction false} TwoTo32()
    ensures Pow2(32) == UINT_MAX + 1
  {
    assert Pow2(8) == 256;
    Pow2Add(8, 8);
    Pow2Add(16, 16);
  }

  /** Merging the lightest tree `a` with the next lightest `b` keeps the
      weight bound, because the children of `b` weigh no more than `a`. */
  lemma {:induction false} FibMerge(a: Tree, b: Tree)
    requires FibHeavy(a) && FibHeavy(b) && a.freq <= b.freq
    requires b.Node? ==> b.left.freq <= a.freq && b.right.freq <= a.freq
    ensures FibHeavy(Node(a.freq + b.freq, a, b))
  {
    var ha, hb := Height(a), Height(b);
    if ha >= hb {
      FibStep(ha + 1);
      FibMono(ha + 1, ha + 2);
    } else {
      var c := if Height(b.left) < Height(b.right) then b.right else b.left;
      assert Height(c) + 1 == hb;
      FibStep(hb + 1);
    }
  }

  lemma {:induction false} FibStep(n: nat)
    requires n >= 1
    ensures Fib(n + 2) == Fib(n + 1) + Fib(n)
  {
  }

  // ---------------------------------------------------------------------
  // The loop invariant of build_code_tree.

  /** Every child of a tree in the forest weighs no more than any tree of the
      forest: the children were the two lightest trees when they were merged. */
  ghost predicate Greedy(fs: seq<Tree>) {
    forall t, u :: t in fs && u in fs && t.Node? ==> t.left.freq <= u.freq && t.right.freq <= u.freq
  }

  ghost predicate Forest(fs: seq<Tree>, freq: seq<nat>)
    requires |freq| == ALPH_SIZE
  {
    && (forall t :: t in fs ==> Weighted(t) && FibHeavy(t))
    && Greedy(fs)
    && SumFreq(fs) == Total(freq, ALPH_SIZE)
    && multiset(AllSyms(fs)) == multiset(NonZero(freq, ALPH_SIZE))
  }

  lemma {:induction false} LeavesSums(freq: seq<nat>, n: nat)
    requires |freq| == ALPH_SIZE && n <= ALPH_SIZE
    ensures SumFreq(Leaves(freq, n)) == Total(freq, n)
    ensures AllSyms(Leaves(freq, n)) == NonZero(freq, n)
  {
    if n > 0 {
      LeavesSums(freq, n - 1);
      var extra := if freq[n - 1] > 0 then [LeafOf(Tag(n - 1, freq[n - 1]))] else [];
      ForestAppend(Leaves(freq, n - 1), extra);
      if freq[n - 1] > 0 {
        ForestOne(extra[0]);
        NatByte(n - 1);
      }
    }
  }

  /** The leaves init_heap inserts form a forest of the table. */
  lemma {:induction false} LeavesForest(freq: seq<nat>)
    requires |freq| == ALPH_SIZE
    ensures Forest(Leaves(freq, ALPH_SIZE), freq)
  {
    LeavesSums(freq, ALPH_SIZE);
    assert Fib(2) == 1;
  }

  /** Replacing two trees by their merge keeps the forest's total weight
      and its symbols. */
  lemma {:induction false} MergeSums(rest: seq<Tree>, a: Tree, b: Tree, fs: seq<Tree>)
    requires a in fs && b in Without(fs, a) && rest == Without(Without(fs, a), b)
    ensures SumFreq(rest + [Node(a.freq + b.freq, a, b)]) == SumFreq(fs)
    ensures multiset(AllSyms(rest + [Node(a.freq + b.freq, a, b)])) == multiset(AllSyms(fs))
  {
    MergeAppend(rest, a, b);
    MergeFreq(rest, a, b, fs);
    MergeSyms(rest, a, b, fs);
  }

  /** Appending the merged node adds both weights and both symbol lists. */
  lemma {:induction false} MergeAppend(rest: seq<Tree>, a: Tree, b: Tree)
    ensures SumFreq(rest + [Node(a.freq + b.freq, a, b)]) == SumFreq(rest) + a.freq + b.freq
    ensures multiset(AllSyms(rest + [Node(a.freq + b.freq, a, b)]))
            == multiset(AllSyms(rest)) + multiset(Syms(a)) + multiset(Syms(b))
  {
    var merged := rest + [Node(a.freq + b.freq, a, b)];
    assert merged[..|merged| - 1] == rest;
  }

  /** The two trees taken out carry the weight the rest lacks. */
  lemma {:induction false} MergeFreq(rest: seq<Tree>, a: Tree, b: Tree, fs: seq<Tree>)
    requires a in fs && b in Without(fs, a) && rest == Without(Without(fs, a), b)
    ensures SumFreq(rest) + a.freq + b.freq == SumFreq(fs)
  {
    WithoutSum(fs, a);
    WithoutSum(Without(fs, a), b);
  }

  /** The two trees taken out carry the symbols the rest lacks. */
  lemma {:induction false} MergeSyms(rest: seq<Tree>, a: Tree, b: Tree, fs: seq<Tree>)
    requires a in fs && b in Without(fs, a) && rest == Without(Without(fs, a), b)
    ensures multiset(AllSyms(rest)) + multiset(Syms(a)) + multiset(Syms(b)) == multiset(AllSyms(fs))
  {
    WithoutSyms(fs, a);
    WithoutSyms(Without(fs, a), b);
  }

  lemma {:induction false} MergeGreedy(rest: seq<Tree>, a: Tree, b: Tree, fs: seq<Tree>)
    requires Greedy(fs) && a in fs && b in fs
    requires forall t :: t in rest ==> t in fs
    requires forall t :: t in rest ==> b.freq <= t.freq
    requires a.freq <= b.freq
    ensures Greedy(rest + [Node(a.freq + b.freq, a, b)])
  {
    var n := Node(a.freq + b.freq, a, b);
    var fs2 := rest + [n];
    forall t, u | t in fs2 && u in fs2 && t.Node?
      ensures t.left.freq <= u.freq && t.right.freq <= u.freq
    {
      if t == n {
        assert u == n || b.freq <= u.freq;
      } else {
        assert t in fs;
        assert t.left.freq <= a.freq && t.right.freq <= a.freq;
        assert u == n || u in fs;
      }
    }
  }

  /** One iteration of the merge loop keeps the invariant: `a` was extracted
      first (a lightest tree), `b` second (a lightest of the rest). */
  lemma {:induction false} MergeKeeps(fs: seq<Tree>, freq: seq<nat>, a: Tree, b: Tree, next: seq<Tree>)
    requires |freq| == ALPH_SIZE && Forest(fs, freq)
    requires a in fs && forall t :: t in fs ==> a.freq <= t.freq
    requires b in Without(fs, a) && forall t :: t in Without(fs, a) ==> b.freq <= t.freq
    requires next == Without(Without(fs, a), b) + [Node(a.freq + b.freq, a, b)]
    ensures Forest(next, freq)
  {
    var rest := Without(Without(fs, a), b);
    var n := Node(a.freq + b.freq, a, b);
    MergeSums(rest, a, b, fs);
    assert b in fs;
    FibMerge(a, b);
    MergeGreedy(rest, a, b, fs);
    forall t | t in rest + [n]
      ensures Weighted(t) && FibHeavy(t)
    {
      if t != n {
        assert t in fs;
      }
    }
  }

  /** A node lighter than every slot of the heap is lighter than every tree
      of the forest the heap holds. */
  lemma {:induction false} LightestOf(s: seq<Tree>, node: Tree, fs: seq<Tree>)
    requires multiset(s) == multiset(fs) && node in multiset(fs)
    requires forall i :: 0 <= i < |s| ==> node.freq <= s[i].freq
    ensures node in fs && forall t :: t in fs ==> node.freq <= t.freq
  {
    forall t | t in fs
      ensures node.freq <= t.freq
    {
      assert t in multiset(s);
      var i :| 0 <= i < |s| && s[i] == t;
    }
  }

  /** A forest with one tree: that tree carries all the table. */
  lemma {:induction false} ForestSingle(fs: seq<Tree>, freq: seq<nat>, t: Tree)
    requires |freq| == ALPH_SIZE && Forest(fs, freq) && |fs| == 1 && t in fs
    ensures Weighted(t) && FibHeavy(t)
    ensures t.freq == Total(freq, ALPH_SIZE)
    ensures multiset(Syms(t)) == multiset(NonZero(freq, ALPH_SIZE))
  {
    assert fs == [t];
    ForestOne(t);
  }

  /** What build_code_tree returns for a table with some nonzero frequency:
      a weighted tree whose leaves are the occurring symbols, each once, and
      whose root weighs the total count. */
  ghost predicate CodeTreeOf(t: Tree, freq: seq<nat>)
    requires |freq| == ALPH_SIZE
  {
    && Weighted(t) && FibHeavy(t)
    && t.freq == Total(freq, ALPH_SIZE)
    && multiset(Syms(t)) == multiset(NonZero(freq, ALPH_SIZE))
  }

  /** The leaves of the code tree are exactly the symbols that occur, each
      once, and the tree is shallow enough for the code table when the
      total count fits in `unsigned`. */
  lemma {:induction false} CodeTreeLeaves(t: Tree, freq: seq<nat>)
    requires |freq| == ALPH_SIZE && CodeTreeOf(t, freq)
    ensures forall x :: x in Syms(t) <==> freq[x as nat] > 0
    ensures DistinctLeaves(t)
    ensures Total(freq, ALPH_SIZE) <= UINT_MAX ==> Height(t) < 64
  {
    var nz := NonZero(freq, ALPH_SIZE);
    forall x
      ensures x in Syms(t) <==> freq[x as nat] > 0
    {
      NonZeroMembers(freq, ALPH_SIZE, x);
      assert x in Syms(t) <==> x in multiset(nz);
    }
    NonZeroIncreasing(freq, ALPH_SIZE);
    assert NoDup(nz);
    PermNoDup(nz, Syms(t));
    DistinctOfNoDup(t);
    if Total(freq, ALPH_SIZE) <= UINT_MAX {
      ShallowTree(t);
    }
  }

  /** get_sym_freq (huffman_coding.c): the count of a symbol in the
      frequency table, through which init_heap reads it. */
  method GetSymFreq(freq: array<nat>, sym: Byte) returns (n: nat)
    requires freq.Length == ALPH_SIZE
    ensures n == freq[sym as int]
  {
    n := freq[sym as int];
  }

  /** init_heap: a leaf per occurring symbol goes into the empty heap. */
  method InitHeap(heap: Heap, freq: array<nat>)
    requires heap.Valid() && heap.size == 0 && heap.arySize == ALPH_SIZE
    requires freq.Length == ALPH_SIZE
    modifies heap, heap.ary
    ensures heap.Valid()
    ensures multiset(heap.ary[..heap.size]) == multiset(Leaves(freq[..], ALPH_SIZE))
  {
    for sym := 0 to ALPH_SIZE
      invariant heap.Valid() && heap.arySize == ALPH_SIZE
      invariant heap.size == |Leaves(freq[..], sym)|
      invariant multiset(heap.ary[..heap.size]) == multiset(Leaves(freq[..], sym))
    {
      AddLeaf(heap, freq, sym);
    }
  }

  /** One turn of init_heap's loop: the leaf of `sym` goes into the heap
      when the symbol occurs. */
  method AddLeaf(heap: Heap, freq: array<nat>, sym: nat)
    requires freq.Length == ALPH_SIZE && sym < ALPH_SIZE
    requires heap.Valid() && heap.arySize == ALPH_SIZE
    requires heap.size == |Leaves(freq[..], sym)|
    requires multiset(heap.ary[..heap.size]) == multiset(Leaves(freq[..], sym))
    modifies heap, heap.ary
    ensures heap.Valid()
    ensures heap.size == |Leaves(freq[..], sym + 1)|
    ensures multiset(heap.ary[..heap.size]) == multiset(Leaves(freq[..], sym + 1))
  {
    ghost var fs := freq[..];
    LeavesStep(fs, sym);
    var f := GetSymFreq(freq, sym as Byte);
    if f > 0 {
      var node := LeafOf(Tag(sym, f));
      heap.Insert(node);
    }
    assert freq[..] == fs;
  }

  /** One more symbol adds its leaf to the leaves when it occurs. */
  lemma {:induction false} LeavesStep(freq: seq<nat>, n: nat)
    requires |freq| == ALPH_SIZE && n < ALPH_SIZE
    ensures multiset(Leaves(freq, n + 1)) == multiset(Leaves(freq, n)) +
              if freq[n] > 0 then multiset{LeafOf(Tag(n, freq[n]))} else multiset{}
  {
    MultisetConcat(Leaves(freq, n), if freq[n] > 0 then [LeafOf(Tag(n, freq[n]))] else []);
  }

  /** One pass of the loop of build_code_tree: extract the two lightest
      trees, join them under a new node (first extracted on the left, weight
      the sum of both) and insert that node. */
  method MergeLightest(heap: Heap, ghost forest: seq<Tree>, ghost freq: seq<nat>)
      returns (ghost next: seq<Tree>)
    requires |freq| == ALPH_SIZE && heap.Valid() && heap.size >= 2
    requires multiset(heap.ary[..heap.size]) == multiset(forest) && Forest(forest, freq)
    modifies heap, heap.ary
    ensures heap.Valid() && heap.size == old(heap.size) - 1
    ensures multiset(heap.ary[..heap.size]) == multiset(next) && Forest(next, freq)
  {
    var node1, rest := ExtractLightest(heap, forest);
    var node2, rest2 := ExtractLightest(heap, rest);
    var node := Node(node1.freq + node2.freq, node1, node2);
    next := rest2 + [node];
    MergeKeeps(forest, freq, node1, node2, next);
    heap.Insert(node);
    MultisetSnoc(rest2, node, next);
  }

  /** heap_extract seen on the forest: the extracted tree is a lightest one
      of the forest, and the heap goes on holding the rest of it. */
  method ExtractLightest(heap: Heap, ghost forest: seq<Tree>)
      returns (node: Tree, ghost rest: seq<Tree>)
    requires heap.Valid() && heap.size >= 1
    requires multiset(heap.ary[..heap.size]) == multiset(forest)
    modifies heap, heap.ary
    ensures heap.Valid() && heap.size == old(heap.size) - 1
    ensures node in forest && forall t :: t in forest ==> node.freq <= t.freq
    ensures rest == Without(forest, node)
    ensures multiset(heap.ary[..heap.size]) == multiset(rest)
  {
    ghost var before := heap.ary[..heap.size];
    node := heap.Extract();
    LightestOf(before, node, forest);
    rest := Without(forest, node);
  }

  /** build_code_tree: None when no symbol occurs; otherwise the merged tree,
      each merge putting the first extracted node on the left. */
  method BuildCodeTree(table: array<nat>) returns (root: Option<Tree>)
    requires table.Length == ALPH_SIZE
    ensures root.None? <==> forall s :: 0 <= s < ALPH_SIZE ==> table[s] == 0
    ensures root.Some? ==> CodeTreeOf(root.value, table[..])
  {
    var heap := new Heap(ALPH_SIZE);
    InitHeap(heap, table);
    ghost var freq := table[..];
    LeavesForest(freq);
    LeavesEmpty(freq, ALPH_SIZE);
    assert |heap.ary[..heap.size]| == |multiset(Leaves(freq, ALPH_SIZE))|;
    root := MergeAll(heap, Leaves(freq, ALPH_SIZE), freq);
  }

  /** The loop of build_code_tree: the two lightest nodes are merged until
      one is left, which is the root; an empty queue gives None. */
  method MergeAll(heap: Heap, ghost forest0: seq<Tree>, ghost freq: seq<nat>) returns (root: Option<Tree>)
    requires |freq| == ALPH_SIZE && heap.Valid() && heap.arySize == ALPH_SIZE
    requires multiset(heap.ary[..heap.size]) == multiset(forest0) && Forest(forest0, freq)
    modifies heap, heap.ary
    ensures root.None? <==> old(heap.size) == 0
    ensures root.Some? ==> CodeTreeOf(root.value, freq)
  {
    ghost var none, forest := heap.size == 0, forest0;
    while !IsEmpty(heap)
      invariant heap.Valid() && heap.arySize == ALPH_SIZE
      invariant multiset(heap.ary[..heap.size]) == multiset(forest)
      invariant Forest(forest, freq)
      invariant none <==> heap.size == 0
      decreases heap.size
    {
      if Size(heap) == 1 {
        var node := heap.Extract();
        ForestSingle(forest, freq, node);
        return Some(node);
      }
      forest := MergeLightest(heap, forest, freq);
    }
    return None;
  }
}
