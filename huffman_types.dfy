/** The code tree of the archiver (huffman_tree.h). A node of the C tree is
    a `Tag` label (symbol, frequency) with two child pointers; a leaf has a
    symbol of at most UCHAR_MAX and no children, an internal node has the
    symbol UINT_MAX and two children. Here the two kinds are the two
    constructors of `Tree`, and `Label` gives back the C label. */
module HuffmanTypes {
  import opened Bytes

  const ALPH_SIZE: nat := 256
  const UCHAR_MAX: nat := 255
  const UINT_MAX: nat := 0xFFFF_FFFF

  datatype Option<T> = None | Some(value: T)

  /** make_tag: a symbol and a frequency. */
  datatype Tag = Tag(sym: nat, freq: nat)

  /** Left child is bit 0, right child is bit 1. */
  datatype Tree =
    | Leaf(sym: Byte, freq: nat)
    | Node(freq: nat, left: Tree, right: Tree)

  /** The label the C node carries. Its two leaf tests agree: the symbol is
      at most UCHAR_MAX exactly when the node has no children. */
  function Label(t: Tree): (l: Tag)
    ensures l.freq == t.freq
    ensures l.sym <= UCHAR_MAX <==> t.Leaf?
    ensures t.Leaf? ==> l.sym == t.sym as nat
  {
    match t
    case Leaf(s, f) => Tag(s as nat, f)
    case Node(f, _, _) => Tag(UINT_MAX, f)
  }

  /** tree_create on a symbol's label: a childless node with that label. */
  function LeafOf(lab: Tag): (t: Tree)
    requires lab.sym <= UCHAR_MAX
    ensures t.Leaf? && Label(t) == lab
  {
    NatByte(lab.sym);
    Leaf(lab.sym as Byte, lab.freq)
  }

  /** The leaf symbols, left to right. */
  function Syms(t: Tree): (s: seq<Byte>)
    ensures |s| >= 1
  {
    match t
    case Leaf(x, _) => [x]
    case Node(_, l, r) => Syms(l) + Syms(r)
  }

  /** No symbol labels two leaves. */
  predicate DistinctLeaves(t: Tree) {
    match t
    case Leaf(_, _) => true
    case Node(_, l, r) =>
      && DistinctLeaves(l) && DistinctLeaves(r)
      && forall x :: x in Syms(l) ==> x !in Syms(r)
  }

  /** No value occurs twice. */
  predicate NoDup<T(==)>(s: seq<T>) {
    forall i, j :: 0 <= i < j < |s| ==> s[i] != s[j]
  }

  /** A tree whose symbols each occur once has distinct leaves. */
  lemma {:induction false} DistinctOfNoDup(t: Tree)
    requires NoDup(Syms(t))
    ensures DistinctLeaves(t)
  {
    match t
    case Leaf(_, _) =>
    case Node(_, l, r) =>
      var sl, sr := Syms(l), Syms(r);
      assert Syms(t) == sl + sr;
      assert NoDup(sl) by {
        forall i, j | 0 <= i < j < |sl| ensures sl[i] != sl[j] {
          assert (sl + sr)[i] == sl[i] && (sl + sr)[j] == sl[j];
        }
      }
      assert NoDup(sr) by {
        forall i, j | 0 <= i < j < |sr| ensures sr[i] != sr[j] {
          assert (sl + sr)[|sl| + i] == sr[i] && (sl + sr)[|sl| + j] == sr[j];
        }
      }
      forall x | x in sl
        ensures x !in sr
      {
        var i :| 0 <= i < |sl| && sl[i] == x;
        forall j | 0 <= j < |sr|
          ensures sr[j] != x
        {
          assert (sl + sr)[i] == sl[i] && (sl + sr)[|sl| + j] == sr[j];
        }
      }
      DistinctOfNoDup(l);
      DistinctOfNoDup(r);
  }

  /** A duplicate-free sequence holds each value at most once. */
  lemma {:induction false} NoDupCount<T>(s: seq<T>, x: T)
    requires NoDup(s)
    ensures multiset(s)[x] <= 1
  {
    if s != [] {
      var n := |s| - 1;
      assert s == s[..n] + [s[n]];
      assert multiset(s) == multiset(s[..n]) + multiset{s[n]};
      assert NoDup(s[..n]) by {
        forall i, j | 0 <= i < j < n ensures s[..n][i] != s[..n][j] {
          assert s[..n][i] == s[i] && s[..n][j] == s[j];
        }
      }
      NoDupCount(s[..n], x);
      if x == s[n] {
        assert x !in s[..n];
        assert multiset(s[..n])[x] == 0;
      }
    }
  }

  /** A permutation of a duplicate-free sequence is duplicate-free. */
  lemma {:induction false} PermNoDup<T>(a: seq<T>, b: seq<T>)
    requires multiset(a) == multiset(b) && NoDup(a)
    ensures NoDup(b)
  {
    forall i, j | 0 <= i < j < |b|
      ensures b[i] != b[j]
    {
      if b[i] == b[j] {
        var x := b[i];
        assert b == b[..j] + [x] + b[j + 1..];
        assert x in b[..j];
        assert multiset(b) == multiset(b[..j]) + multiset{x} + multiset(b[j + 1..]);
        assert multiset(b[..j])[x] >= 1;
        NoDupCount(a, x);
        assert false;
      }
    }
  }

  /** The sum of the leaf frequencies. */
  function LeafWeight(t: Tree): nat {
    match t
    case Leaf(_, f) => f
    case Node(_, l, r) => LeafWeight(l) + LeafWeight(r)
  }

  /** Every internal node weighs what its two children weigh together. */
  predicate Weighted(t: Tree) {
    match t
    case Leaf(_, _) => true
    case Node(f, l, r) => f == l.freq + r.freq && Weighted(l) && Weighted(r)
  }

  lemma {:induction false} WeightedRoot(t: Tree)
    requires Weighted(t)
    ensures t.freq == LeafWeight(t)
  {
    match t
    case Leaf(_, _) =>
    case Node(_, l, r) =>
      WeightedRoot(l);
      WeightedRoot(r);
  }

  /** The number of edges on the longest root-to-leaf path. */
  function Height(t: Tree): nat {
    match t
    case Leaf(_, _) => 0
    case Node(_, l, r) => 1 + (if Height(l) < Height(r) then Height(r) else Height(l))
  }

  /** The tree with every frequency set to 0 and internal labels UINT_MAX:
      what read_tree rebuilds from the bits of a tree. */
  function Shape(t: Tree): (u: Tree)
    ensures u.freq == 0 && Syms(u) == Syms(t) && Height(u) == Height(t)
  {
    match t
    case Leaf(s, _) => Leaf(s, 0)
    case Node(_, l, r) => Node(0, Shape(l), Shape(r))
  }
}
