/**
 * Insertion into the red-black tree of `rb_tree.py`: `insert_into`,
 * `insert` and `_percolate`.
 */
module RedBlackInsert {
  import opened RedBlackTree

  /** The sequence with `v` placed just before its first element that is not below `v`. */
  function InsertSorted(s: seq<int>, v: int): seq<int>
  {
    if s == [] || v <= s[0] then [v] + s else [s[0]] + InsertSorted(s[1..], v)
  }

  /** When everything in `a` is below `v` and nothing in `b` is, `v` lands between them. */
  lemma {:induction false} InsertSortedSplit(a: seq<int>, b: seq<int>, v: int)
    requires forall x :: x in a ==> x < v
    requires forall x :: x in b ==> v <= x
    ensures InsertSorted(a + b, v) == a + [v] + b
    decreases |a|
  {
    if a == [] {
      assert a + b == b;
      if b != [] {
        assert b[0] in b;
      }
    } else {
      assert (a + b)[0] == a[0] && (a + b)[1..] == a[1..] + b;
      assert a[0] in a;
      assert forall x :: x in a[1..] ==> x in a;
      InsertSortedSplit(a[1..], b, v);
    }
  }

  /** Placing `v` adds exactly one `v`. */
  lemma {:induction false} InsertSortedMultiset(s: seq<int>, v: int)
    ensures multiset(InsertSorted(s, v)) == multiset(s) + multiset{v}
    decreases |s|
  {
    if s != [] && s[0] < v {
      assert s == [s[0]] + s[1..];
      InsertSortedMultiset(s[1..], v);
    }
  }

  /** Placing `v` keeps a sorted sequence sorted and adds exactly one `v`. */
  lemma {:induction false} InsertSortedMeaning(s: seq<int>, v: int)
    requires Sorted(s)
    ensures Sorted(InsertSorted(s, v))
    ensures multiset(InsertSorted(s, v)) == multiset(s) + multiset{v}
    decreases |s|
  {
    InsertSortedMultiset(s, v);
    if s == [] || v <= s[0] {
      SortedCons(v, s);
    } else {
      var t := s[1..];
      assert Sorted(t) by {
        forall i, j | 0 <= i < j < |t| ensures t[i] <= t[j] {
          assert t[i] == s[i + 1] && t[j] == s[j + 1];
        }
      }
      InsertSortedMeaning(t, v);
      var r := InsertSorted(t, v);
      forall i | 0 <= i < |r|
        ensures s[0] <= r[i]
      {
        assert r[i] in multiset(t) + multiset{v};
        if r[i] != v {
          assert r[i] in t;
          var k :| 0 <= k < |t| && t[k] == r[i];
          assert s[k + 1] == r[i];
        }
      }
      SortedCons(s[0], r);
    }
  }

  // ---------------------------------------------------------------------------
  // _percolate
  // ---------------------------------------------------------------------------

  /**
   * The state `_percolate` works on: a red node with black children whose
   * parent may be red; every other invariant of the tree holds.
   */
  predicate Percolating(z: Zipper)
  {
    z.focus.Node? && z.focus.color == Red &&
    ColorOf(z.focus.left) == Black && ColorOf(z.focus.right) == Black &&
    Balanced(z.focus) && NoRedRed(z.focus) &&
    PathBalanced(z.path, BlackHeight(z.focus)) &&
    PathNoRedRed(z.path, Black) &&
    (z.path != [] ==> z.path[|z.path| - 1].color == Black)
  }

  /** The red uncle case: the parent and the uncle turn black and the grandparent red. */
  function PushBlack(n: Tree, p: Frame, g: Frame): Tree
    requires g.sibling.Node?
  {
    Attach(Frame(Red, g.value, g.side, Paint(g.sibling, Black)), Attach(p.(color := Black), n))
  }

  /**
   * The black uncle case: a rotation at the parent when the node is an inner
   * grandchild, a rotation at the grandparent, then the top turns black and
   * the grandparent red.
   */
  function Restructure(n: Tree, p: Frame, g: Frame): (t: Tree)
    requires n.Node?
    ensures t.Node?
  {
    var parent := if g.side != p.side then Rotate(Attach(p, n), 1 - p.side) else Attach(p, n);
    var top := Rotate(Attach(g, parent), 1 - g.side);
    Repaint(top, Black, 1 - g.side, Red)
  }

  /** The shape `Percolating` promises for a red node with a red parent. */
  predicate RedParent(n: Tree, p: Frame, g: Frame)
  {
    n.Node? && n.color == Red && ColorOf(n.left) == Black && ColorOf(n.right) == Black &&
    Balanced(n) && NoRedRed(n) &&
    p.color == Red && Balanced(p.sibling) && BlackHeight(p.sibling) == BlackHeight(n) &&
    NoRedRed(p.sibling) && ColorOf(p.sibling) == Black &&
    g.color == Black && Balanced(g.sibling) && BlackHeight(g.sibling) == BlackHeight(n) &&
    NoRedRed(g.sibling)
  }

  lemma PushBlackFacts(n: Tree, p: Frame, g: Frame)
    requires RedParent(n, p, g) && ColorOf(g.sibling) == Red
    ensures var t := PushBlack(n, p, g);
      t.Node? && t.color == Red && ColorOf(t.left) == Black && ColorOf(t.right) == Black &&
      Balanced(t) && NoRedRed(t) && BlackHeight(t) == BlackHeight(n) + 1
    ensures Inorder(PushBlack(n, p, g)) == Inorder(Attach(g, Attach(p, n)))
  {
    var u := g.sibling;
    assert Inorder(Paint(u, Black)) == Inorder(u);
    assert NoRedRed(Paint(u, Black)) && BlackHeight(Paint(u, Black)) == BlackHeight(n) + 1;
  }

  lemma RestructureFacts(n: Tree, p: Frame, g: Frame)
    requires RedParent(n, p, g) && ColorOf(g.sibling) == Black
    ensures var t := Restructure(n, p, g);
      t.color == Black && Balanced(t) && NoRedRed(t) && BlackHeight(t) == BlackHeight(n) + 1
    ensures Inorder(Restructure(n, p, g)) == Inorder(Attach(g, Attach(p, n)))
  {
    var s := g.side;
    var parent := if s != p.side then Rotate(Attach(p, n), 1 - p.side) else Attach(p, n);
    var top := Rotate(Attach(g, parent), 1 - s);
    RotateInorder(Attach(g, parent), 1 - s);
    if s != p.side {
      RotateInorder(Attach(p, n), 1 - p.side);
    }
    var child := Child(top, 1 - s);
    assert Inorder(Repaint(top, Black, 1 - s, Red)) == Inorder(top) by {
      assert Inorder(Paint(child, Red)) == Inorder(child);
    }
    if s == p.side {
      var lower := Join(1 - s, Red, g.sibling, g.value, p.sibling);
      assert Restructure(n, p, g) == Join(1 - s, Black, lower, p.value, n);
      JoinFacts(1 - s, Red, g.sibling, g.value, p.sibling);
      JoinFacts(1 - s, Black, lower, p.value, n);
    } else {
      var low := Join(1 - s, Red, g.sibling, g.value, Child(n, 1 - s));
      var high := Join(s, Red, p.sibling, p.value, Child(n, s));
      assert Restructure(n, p, g) == Join(1 - s, Black, low, n.value, high);
      JoinFacts(s, Red, Child(n, s), n.value, Child(n, 1 - s));
      JoinFacts(1 - s, Red, g.sibling, g.value, Child(n, 1 - s));
      JoinFacts(s, Red, p.sibling, p.value, Child(n, s));
      JoinFacts(1 - s, Black, low, n.value, high);
    }
  }

  /** `_percolate`: restores the invariants after a red node is hung below a possibly red parent. */
  method Percolate(z: Zipper) returns (r: Zipper)
    requires Percolating(z)
    ensures RedBlack(Whole(r))
    ensures Inorder(Whole(r)) == Inorder(Whole(z))
    ensures z.path == [] ==> r == Zipper(Paint(z.focus, Black), [])
    decreases |z.path|
  {
    if z.path == [] {
      r := Zipper(Paint(z.focus, Black), []);
      return;
    }
    var p := z.path[0];
    if p.color == Black {
      WholeRedBlack(z.focus, z.path);
      return z;
    }
    // A red parent is not the root, so the grandparent exists.
    assert 2 <= |z.path|;
    var g := z.path[1];
    var rest := z.path[2..];
    assert z.path[1..][0] == g && z.path[1..][1..] == rest;
    assert Whole(z) == Plug(Attach(p, z.focus), z.path[1..]);
    assert Whole(z) == Plug(Attach(g, Attach(p, z.focus)), rest);
    assert PathBalanced(z.path[1..], BlackHeight(z.focus));
    assert PathNoRedRed(z.path[1..], Red);
    assert RedParent(z.focus, p, g);
    if ColorOf(g.sibling) == Red {
      PushBlackFacts(z.focus, p, g);
      var grand := PushBlack(z.focus, p, g);
      PlugInorder(grand, rest);
      PlugInorder(Attach(g, Attach(p, z.focus)), rest);
      r := Percolate(Zipper(grand, rest));
    } else {
      RestructureFacts(z.focus, p, g);
      var top := Restructure(z.focus, p, g);
      r := Zipper(top, rest);
      PathNoRedRedBlack(rest, g.color);
      WholeRedBlack(top, rest);
      PlugInorder(top, rest);
      PlugInorder(Attach(g, Attach(p, z.focus)), rest);
    }
  }

  // ---------------------------------------------------------------------------
  // insert and insert_into
  // ---------------------------------------------------------------------------

  /** What `insert` keeps on its way down: the values left of the node are below `v`, the others are not. */
  predicate Descending(z: Zipper, v: int)
  {
    RedBlack(Whole(z)) && Sorted(Inorder(Whole(z))) &&
    (forall x :: x in Before(z.path) ==> x < v) &&
    (forall x :: x in After(z.path) ==> v <= x)
  }

  lemma DescendStep(z: Zipper, v: int)
    requires z.focus.Node? && Descending(z, v)
    ensures var d := Down(z, if v <= z.focus.value then 0 else 1);
      Descending(d, v) && Whole(d) == Whole(z) && Size(d.focus) < Size(z.focus)
  {
    var side: Side := if v <= z.focus.value then 0 else 1;
    DownWhole(z, side);
    DownSides(z, side);
    FocusSorted(z);
    NodeSeparates(z.focus);
  }

  /** A red node hung at a missing child with the bounds of `Descending` is ready for `_percolate`. */
  lemma HangInfant(down: Zipper, v: int)
    requires down.focus.Leaf? && Descending(down, v)
    ensures var infant := Zipper(Node(Red, Leaf, v, Leaf), down.path);
      Percolating(infant) && Inorder(Whole(infant)) == InsertSorted(Inorder(Whole(down)), v)
  {
    var infant := Zipper(Node(Red, Leaf, v, Leaf), down.path);
    WholeRedBlack(down.focus, down.path);
    PathNoRedRedBlack(down.path, ColorOf(down.focus));
    PlugInorder(infant.focus, infant.path);
    PlugInorder(down.focus, down.path);
    var b, a := Before(down.path), After(down.path);
    assert Inorder(Whole(down)) == b + a;
    assert Inorder(Whole(infant)) == b + [v] + a;
    InsertSortedSplit(b, a, v);
  }

  /**
   * `insert`: smaller or equal values go left, larger ones right; at a
   * missing child a red node is hung and percolated.
   */
  method Insert(z: Zipper, v: int) returns (r: Zipper)
    requires z.focus.Node? && Descending(z, v)
    ensures RedBlack(Whole(r))
    ensures Inorder(Whole(r)) == InsertSorted(Inorder(Whole(z)), v)
    decreases Size(z.focus)
  {
    var side: Side := if v <= z.focus.value then 0 else 1;
    var down := Down(z, side);
    DescendStep(z, v);
    if down.focus.Node? {
      r := Insert(down, v);
    } else {
      var infant := Zipper(Node(Red, Leaf, v, Leaf), down.path);
      HangInfant(down, v);
      r := Percolate(infant);
    }
  }

  /** `insert_into`: the root of the tree with `v` added; `Leaf` is the empty tree. */
  method InsertInto(root: Tree, v: int) returns (r: Tree)
    requires Valid(root)
    ensures Valid(r)
    ensures Inorder(r) == InsertSorted(Inorder(root), v)
    ensures root == Leaf ==> r == Node(Black, Leaf, v, Leaf)
  {
    var z: Zipper;
    if root.Leaf? {
      z := Percolate(Zipper(Node(Red, Leaf, v, Leaf), []));
    } else {
      z := Insert(Zipper(root, []), v);
    }
    r := Climb(z);
    InsertSortedMeaning(Inorder(root), v);
  }
}
