/** The code table of huffman_tree.c: for every symbol the string of '0'
    and '1' characters on the way from the root of the code tree down to its
    leaf, '0' for a left edge and '1' for a right edge; the one-bit code "0"
    when the tree is a single leaf; the empty string for a symbol that does
    not occur. */
module CodeTable {
  import opened Bytes
  import opened HuffmanTypes

  /** A row of code_table holds at most this many characters. */
  const MAX_CODE_LEN: nat := 64

  /** The edges from the root of `t` down to the leaf of `s`: false for a
      left edge, true for a right edge. */
  function PathTo(t: Tree, s: Byte): (p: seq<bool>)
    requires s in Syms(t)
    ensures |p| <= Height(t)
    ensures t.Node? ==> |p| >= 1
  {
    match t
    case Leaf(_, _) => []
    case Node(_, l, r) => if s in Syms(l) then [false] + PathTo(l, s) else [true] + PathTo(r, s)
  }

  /** A path written as code characters. */
  function CodeChars(p: seq<bool>): (c: seq<char>)
    ensures |c| == |p|
    ensures forall i :: 0 <= i < |p| ==> c[i] == (if p[i] then '1' else '0')
  {
    seq(|p|, i requires 0 <= i < |p| => if p[i] then '1' else '0')
  }

  /** The bits write_code_to_outbuf emits for a code: a set bit for '1', a
      clear bit for any other character. */
  function CodeBits(c: seq<char>): (bits: seq<bool>)
    ensures |bits| == |c|
    ensures forall i :: 0 <= i < |c| ==> bits[i] == (c[i] == '1')
  {
    seq(|c|, i requires 0 <= i < |c| => c[i] == '1')
  }

  lemma {:induction false} CodeBitsOfChars(p: seq<bool>)
    ensures CodeBits(CodeChars(p)) == p
  {
  }

  /** The row build_code_table leaves for symbol `s`. */
  function Row(root: Option<Tree>, s: Byte): seq<char> {
    match root
    case None => ""
    case Some(t) =>
      if t.Leaf? then (if s == t.sym then "0" else "")
      else if s in Syms(t) then CodeChars(PathTo(t, s))
      else ""
  }

  /** The rows of the symbols below `n`. */
  function CodesUpTo(root: Option<Tree>, n: nat): (rows: seq<seq<char>>)
    requires n <= ALPH_SIZE
    ensures |rows| == n
  {
    if n == 0 then [] else CodesUpTo(root, n - 1) + [Row(root, (n - 1) as Byte)]
  }

  /** The whole table build_code_table leaves, one row per symbol. */
  function Codes(root: Option<Tree>): (rows: seq<seq<char>>)
    ensures |rows| == ALPH_SIZE
  {
    CodesUpTo(root, ALPH_SIZE)
  }

  lemma {:induction false} CodesUpToAt(root: Option<Tree>, n: nat, i: nat)
    requires i < n <= ALPH_SIZE
    ensures CodesUpTo(root, n)[i] == Row(root, i as Byte)
  {
    if i < n - 1 {
      CodesUpToAt(root, n - 1, i);
    }
  }

  /** The row of `s` in the whole table. */
  lemma {:induction false} CodesAt(root: Option<Tree>, s: Byte)
    ensures Codes(root)[s as int] == Row(root, s)
  {
    CodesUpToAt(root, ALPH_SIZE, s as int);
  }

  /** A table whose row of every symbol is that symbol's row is the whole
      table. */
  lemma {:induction false} TableOfRows(rows: seq<seq<char>>, root: Option<Tree>)
    requires |rows| == ALPH_SIZE && forall s: Byte :: rows[s as int] == Row(root, s)
    ensures rows == Codes(root)
  {
    forall i | 0 <= i < ALPH_SIZE
      ensures rows[i] == Codes(root)[i]
    {
      NatByte(i);
      CodesAt(root, i as Byte);
    }
  }

  /** `a` is a prefix of `b`. */
  predicate IsPrefix<T(==)>(a: seq<T>, b: seq<T>) {
    |a| <= |b| && b[..|a|] == a
  }

  /** The paths to two different leaves of a tree with distinct leaves part
      ways: neither is a prefix of the other. */
  lemma {:induction false} PathsDiverge(t: Tree, s1: Byte, s2: Byte)
    requires DistinctLeaves(t) && s1 in Syms(t) && s2 in Syms(t) && s1 != s2
    ensures !IsPrefix(PathTo(t, s1), PathTo(t, s2))
  {
    match t
    case Leaf(_, _) =>
      assert false;
    case Node(_, l, r) =>
      var p1, p2 := PathTo(t, s1), PathTo(t, s2);
      if s1 in Syms(l) && s2 in Syms(l) {
        PathsDiverge(l, s1, s2);
        PrefixTail(p1, p2, PathTo(l, s1), PathTo(l, s2));
      } else if s1 !in Syms(l) && s2 !in Syms(l) {
        PathsDiverge(r, s1, s2);
        PrefixTail(p1, p2, PathTo(r, s1), PathTo(r, s2));
      } else {
        assert p1[0] != p2[0];
      }
  }

  /** Two paths with the same first edge are prefixes of each other exactly
      when the rest of them are. */
  lemma {:induction false} PrefixTail(p1: seq<bool>, p2: seq<bool>, q1: seq<bool>, q2: seq<bool>)
    requires |p1| >= 1 && |p2| >= 1 && p1[0] == p2[0]
    requires p1[1..] == q1 && p2[1..] == q2
    ensures IsPrefix(p1, p2) ==> IsPrefix(q1, q2)
  {
    if IsPrefix(p1, p2) {
      assert p2[..|p1|][1..] == q2[..|q1|];
    }
  }

  /** Writing paths as characters keeps prefixes. */
  lemma {:induction false} CharsPrefix(p1: seq<bool>, p2: seq<bool>)
    ensures IsPrefix(CodeChars(p1), CodeChars(p2)) ==> IsPrefix(p1, p2)
  {
    if IsPrefix(CodeChars(p1), CodeChars(p2)) {
      forall i | 0 <= i < |p1|
        ensures p2[i] == p1[i]
      {
        assert CodeChars(p2)[..|p1|][i] == CodeChars(p1)[i];
      }
      assert p2[..|p1|] == p1;
    }
  }

  /** The rows of the table are the codes of exactly the symbols of the
      tree, each nonempty and at most as long as the tree is high (one
      character for a single leaf), and no row is a prefix of another. */
  lemma {:induction false} CodesPrefixFree(root: Option<Tree>, s1: Byte, s2: Byte)
    requires root.Some? ==> DistinctLeaves(root.value)
    ensures Row(root, s1) != "" <==> root.Some? && s1 in Syms(root.value)
    ensures root.Some? && root.value.Leaf? ==> |Row(root, s1)| <= 1
    ensures root.Some? && root.value.Node? ==> |Row(root, s1)| <= Height(root.value)
    ensures s1 != s2 && Row(root, s1) != "" && Row(root, s2) != "" ==>
              !IsPrefix(Row(root, s1), Row(root, s2))
  {
    if root.Some? && root.value.Node? && s1 != s2 && s1 in Syms(root.value) && s2 in Syms(root.value) {
      PathsDiverge(root.value, s1, s2);
      CharsPrefix(PathTo(root.value, s1), PathTo(root.value, s2));
    }
  }

  /** reset_code_table: every row empty. */
  method ResetCodeTable(table: array<seq<char>>)
    modifies table
    ensures forall i :: 0 <= i < table.Length ==> table[i] == ""
  {
    forall i | 0 <= i < table.Length {
      table[i] := "";
    }
  }

  /** The rows left by a traversal of `node` reached along `path`, from the
      rows `rows`: each leaf, left to right, overwrites its row with its path. */
  function Traverse(rows: seq<seq<char>>, node: Tree, path: seq<bool>): (r: seq<seq<char>>)
    requires |rows| == ALPH_SIZE
    ensures |r| == ALPH_SIZE
    decreases node
  {
    match node
    case Leaf(x, _) => rows[x as int := CodeChars(path)]
    case Node(_, l, r) => Traverse(Traverse(rows, l, path + [false]), r, path + [true])
  }

  /** After a traversal, the row of every symbol of a tree with distinct
      leaves is its path below `path`, and every other row is unchanged. */
  lemma {:induction false} TraverseRows(rows: seq<seq<char>>, node: Tree, path: seq<bool>, s: Byte)
    requires |rows| == ALPH_SIZE && DistinctLeaves(node)
    ensures Traverse(rows, node, path)[s as int] ==
              if s in Syms(node) then CodeChars(path + PathTo(node, s)) else rows[s as int]
    decreases node
  {
    match node
    case Leaf(_, _) =>
      TraverseLeaf(rows, node, path, s);
    case Node(_, l, r) =>
      var mid := Traverse(rows, l, path + [false]);
      TraverseRows(rows, l, path + [false], s);
      TraverseRows(mid, r, path + [true], s);
      if s in Syms(l) {
        assert s !in Syms(r);
        Assoc(path, [false], PathTo(l, s));
      } else if s in Syms(r) {
        Assoc(path, [true], PathTo(r, s));
      }
  }

  /** A leaf's traversal writes its symbol's row and no other. */
  lemma {:induction false} TraverseLeaf(rows: seq<seq<char>>, leaf: Tree, path: seq<bool>, s: Byte)
    requires |rows| == ALPH_SIZE && leaf.Leaf?
    ensures Traverse(rows, leaf, path)[s as int] ==
              if s == leaf.sym then CodeChars(path + PathTo(leaf, s)) else rows[s as int]
  {
    if s == leaf.sym {
      assert path + [] == path;
    } else {
      ByteNat(s);
      ByteNat(leaf.sym);
    }
  }

  /** tree_traversal: the static buffer and depth of the C function are the
      `path` to `node`; the buffer has room for paths of MAX_CODE_LEN edges. */
  method TreeTraversal(table: array<seq<char>>, node: Tree, path: seq<bool>)
    requires table.Length == ALPH_SIZE
    requires |path| + Height(node) <= MAX_CODE_LEN
    modifies table
    ensures table[..] == Traverse(old(table[..]), node, path)
    decreases node
  {
    match node
    case Leaf(x, _) =>
      table[x as int] := CodeChars(path);
    case Node(_, l, r) =>
      TreeTraversal(table, l, path + [false]);
      TreeTraversal(table, r, path + [true]);
  }

  /** build_code_table: clear the table; then nothing more for a missing
      tree, "0" for a single leaf, the traversal otherwise. */
  method BuildCodeTable(table: array<seq<char>>, root: Option<Tree>)
    requires table.Length == ALPH_SIZE
    requires root.Some? ==> DistinctLeaves(root.value) && Height(root.value) <= MAX_CODE_LEN
    modifies table
    ensures table[..] == Codes(root)
  {
    ResetCodeTable(table);
    if root.None? {
      TableOfRows(table[..], root);
      return;
    }
    var t := root.value;
    if t.Leaf? {
      ghost var cleared := table[..];
      table[t.sym as int] := "0";
      assert table[..] == cleared[t.sym as int := "0"];
      LeafRows(cleared, t);
      return;
    }
    ghost var cleared := table[..];
    TreeTraversal(table, t, []);
    TraversedRows(cleared, t);
  }

  /** Row "0" for the symbol of a single leaf over cleared rows is the
      whole table of that leaf. */
  lemma {:induction false} LeafRows(cleared: seq<seq<char>>, t: Tree)
    requires |cleared| == ALPH_SIZE && forall i :: 0 <= i < ALPH_SIZE ==> cleared[i] == ""
    requires t.Leaf?
    ensures cleared[t.sym as int := "0"] == Codes(Some(t))
  {
    var rows := cleared[t.sym as int := "0"];
    forall i | 0 <= i < ALPH_SIZE
      ensures rows[i] == Codes(Some(t))[i]
    {
      LeafRow(t, i);
      CodesUpToAt(Some(t), ALPH_SIZE, i);
    }
  }

  /** The row of a single leaf for the symbol numbered `i`. */
  lemma {:induction false} LeafRow(t: Tree, i: nat)
    requires t.Leaf? && i < ALPH_SIZE
    ensures Row(Some(t), i as Byte) == if i == t.sym as int then "0" else ""
  {
    NatByte(i);
    ByteNat(t.sym);
  }


  /** A traversal from the root over cleared rows leaves the whole table of
      a tree with more than one leaf. */
  lemma {:induction false} TraversedRows(cleared: seq<seq<char>>, t: Tree)
    requires |cleared| == ALPH_SIZE && forall i :: 0 <= i < ALPH_SIZE ==> cleared[i] == ""
    requires t.Node? && DistinctLeaves(t)
    ensures Traverse(cleared, t, []) == Codes(Some(t))
  {
    var rows := Traverse(cleared, t, []);
    forall s: Byte
      ensures rows[s as int] == Row(Some(t), s)
    {
      TraverseRows(cleared, t, [], s);
      if s in Syms(t) {
        assert [] + PathTo(t, s) == PathTo(t, s);
      }
    }
    TableOfRows(rows, Some(t));
  }

  /** get_code: the row of a symbol. */
  method GetCode(table: array<seq<char>>, sym: Byte) returns (code: seq<char>)
    requires table.Length == ALPH_SIZE
    ensures code == table[sym as int]
  {
    code := table[sym as int];
  }
}
