/**
 * The red-black tree of `rb_tree.py` (class `NodeRB`), on values.
 *
 * A node is a colour, a value and two children; a missing child (`None`) is
 * `Leaf`. The parent links of the source are the frames of a zipper: the
 * path from a node up to the root, each frame recording the parent's colour
 * and value, the side the node hangs on and the other child. `Plug`
 * rebuilds the tree from a node and its path, as following `parent` up to
 * the root does.
 */
module RedBlackTree {

  datatype Color = Black | Red

  datatype Tree = Leaf | Node(color: Color, left: Tree, value: int, right: Tree)

  /** An index into `children`: 0 is the left child, 1 the right one. */
  type Side = s: nat | s < 2

  /** The colour of a possibly missing node: a missing one counts as black. */
  function ColorOf(t: Tree): Color
  {
    if t.Leaf? then Black else t.color
  }

  /** `children[side]`. */
  function Child(t: Tree, side: Side): Tree
    requires t.Node?
  {
    if side == 0 then t.left else t.right
  }

  /** The node with `near` at `side` and `far` at the other side. */
  function Join(side: Side, color: Color, near: Tree, value: int, far: Tree): (t: Tree)
    ensures t.Node? && t.color == color && t.value == value
    ensures Child(t, side) == near && Child(t, 1 - side) == far
  {
    if side == 0 then Node(color, near, value, far) else Node(color, far, value, near)
  }

  /** What a node built by `Join` contains and which invariants it has, side by side. */
  lemma JoinFacts(side: Side, color: Color, near: Tree, value: int, far: Tree)
    ensures var t := Join(side, color, near, value, far);
      (Balanced(t) <==> Balanced(near) && Balanced(far) && BlackHeight(near) == BlackHeight(far)) &&
      (NoRedRed(t) <==> NoRedRed(near) && NoRedRed(far) &&
                        (color == Red ==> ColorOf(near) == Black && ColorOf(far) == Black)) &&
      (Balanced(t) ==> BlackHeight(t) == BlackHeight(near) + if color == Black then 1 else 0) &&
      ColorOf(t) == color
  {
  }

  /** The node with its colour replaced. */
  function Paint(t: Tree, c: Color): Tree
    requires t.Node?
  {
    Node(c, t.left, t.value, t.right)
  }

  function Size(t: Tree): nat
  {
    if t.Leaf? then 0 else Size(t.left) + 1 + Size(t.right)
  }

  // ---------------------------------------------------------------------------
  // Contents and invariants
  // ---------------------------------------------------------------------------

  /** The values in order, left subtree first. */
  function Inorder(t: Tree): seq<int>
  {
    if t.Leaf? then [] else Inorder(t.left) + [t.value] + Inorder(t.right)
  }

  predicate Sorted(s: seq<int>)
  {
    forall i, j :: 0 <= i < j < |s| ==> s[i] <= s[j]
  }

  /** A sorted sequence stays sorted when a lower bound is put in front. */
  lemma SortedCons(x: int, r: seq<int>)
    requires Sorted(r)
    requires forall i :: 0 <= i < |r| ==> x <= r[i]
    ensures Sorted([x] + r)
  {
    forall i, j | 0 <= i < j < |[x] + r|
      ensures ([x] + r)[i] <= ([x] + r)[j]
    {
      if i > 0 {
        assert ([x] + r)[i] == r[i - 1];
      }
      assert ([x] + r)[j] == r[j - 1];
    }
  }

  /** In a sorted `a + l + [x] + r + c`, the values of `l` are at most `x` and those of `r` at least `x`. */
  lemma SortedAround(a: seq<int>, l: seq<int>, x: int, r: seq<int>, c: seq<int>)
    requires Sorted(a + l + [x] + r + c)
    ensures forall y :: y in l ==> y <= x
    ensures forall y :: y in r ==> x <= y
  {
    var s := a + l + [x] + r + c;
    assert s[|a| + |l|] == x;
    forall y | y in l
      ensures y <= x
    {
      var j :| 0 <= j < |l| && l[j] == y;
      assert s[|a| + j] == y;
    }
    forall y | y in r
      ensures x <= y
    {
      var j :| 0 <= j < |r| && r[j] == y;
      assert s[|a| + |l| + 1 + j] == y;
    }
  }

  /** A stretch of a sorted sequence is sorted. */
  lemma SortedInside(a: seq<int>, m: seq<int>, c: seq<int>)
    requires Sorted(a + m + c)
    ensures Sorted(m)
  {
    var s := a + m + c;
    forall i, j | 0 <= i < j < |m|
      ensures m[i] <= m[j]
    {
      assert m[i] == s[|a| + i] && m[j] == s[|a| + j];
    }
  }

  /** The black nodes on the leftmost path. */
  function BlackHeight(t: Tree): nat
  {
    if t.Leaf? then 0 else BlackHeight(t.left) + (if t.color == Black then 1 else 0)
  }

  /** Every path from a node down to a missing child meets as many black nodes. */
  predicate Balanced(t: Tree)
  {
    t.Leaf? || (Balanced(t.left) && Balanced(t.right) && BlackHeight(t.left) == BlackHeight(t.right))
  }

  /** No red node has a red child. */
  predicate NoRedRed(t: Tree)
  {
    t.Leaf? ||
    (NoRedRed(t.left) && NoRedRed(t.right) &&
     (t.color == Red ==> ColorOf(t.left) == Black && ColorOf(t.right) == Black))
  }

  /** The colour invariants of a red-black tree: a black root, no red-red edge, equal black counts. */
  predicate RedBlack(t: Tree)
  {
    ColorOf(t) == Black && Balanced(t) && NoRedRed(t)
  }

  /** A red-black tree whose values are in order. */
  predicate Valid(t: Tree)
  {
    RedBlack(t) && Sorted(Inorder(t))
  }

  // ---------------------------------------------------------------------------
  // Parent links as a path of frames
  // ---------------------------------------------------------------------------

  /** A parent: its colour and value, the side the child hangs on, and the child's sibling. */
  datatype Frame = Frame(color: Color, value: int, side: Side, sibling: Tree)

  /** A node and the path from it to the root, the parent first. */
  datatype Zipper = Zipper(focus: Tree, path: seq<Frame>)

  /** The parent of `t` as a tree. */
  function Attach(f: Frame, t: Tree): Tree
  {
    Join(f.side, f.color, t, f.value, f.sibling)
  }

  /** The root reached from `t` by following the parent links of `path`. */
  function Plug(t: Tree, path: seq<Frame>): Tree
    decreases |path|
  {
    if path == [] then t else Plug(Attach(path[0], t), path[1..])
  }

  function Whole(z: Zipper): Tree
  {
    Plug(z.focus, z.path)
  }

  /** One step up: `node = node.parent`. */
  function Up(z: Zipper): Zipper
    requires z.path != []
  {
    Zipper(Attach(z.path[0], z.focus), z.path[1..])
  }

  /** One step down: the node's child at `side` becomes the focus. */
  function Down(z: Zipper, side: Side): Zipper
    requires z.focus.Node?
  {
    Zipper(Child(z.focus, side), [Frame(z.focus.color, z.focus.value, side, Child(z.focus, 1 - side))] + z.path)
  }

  lemma DownWhole(z: Zipper, side: Side)
    requires z.focus.Node?
    ensures Whole(Down(z, side)) == Whole(z)
    ensures Size(Down(z, side).focus) < Size(z.focus)
  {
    var d := Down(z, side);
    assert d.path[0] == Frame(z.focus.color, z.focus.value, side, Child(z.focus, 1 - side));
    assert d.path[1..] == z.path;
    assert Attach(d.path[0], d.focus) == z.focus;
  }

  /** What one step down adds to the values before and after the node. */
  lemma DownSides(z: Zipper, side: Side)
    requires z.focus.Node?
    ensures side == 0 ==> Before(Down(z, side).path) == Before(z.path)
    ensures side == 0 ==> After(Down(z, side).path) == [z.focus.value] + Inorder(z.focus.right) + After(z.path)
    ensures side == 1 ==> Before(Down(z, side).path) == Before(z.path) + (Inorder(z.focus.left) + [z.focus.value])
    ensures side == 1 ==> After(Down(z, side).path) == After(z.path)
  {
    assert Down(z, side).path[1..] == z.path;
  }

  /** The subtree at the node of a sorted tree is sorted. */
  lemma FocusSorted(z: Zipper)
    requires Sorted(Inorder(Whole(z)))
    ensures Sorted(Inorder(z.focus))
  {
    PlugInorder(z.focus, z.path);
    SortedInside(Before(z.path), Inorder(z.focus), After(z.path));
  }

  /** In a sorted subtree, the node's value separates its two sides. */
  lemma NodeSeparates(t: Tree)
    requires t.Node? && Sorted(Inorder(t))
    ensures forall y :: y in Inorder(t.left) ==> y <= t.value
    ensures forall y :: y in Inorder(t.right) ==> t.value <= y
  {
    assert Inorder(t) == [] + Inorder(t.left) + [t.value] + Inorder(t.right) + [];
    SortedAround([], Inorder(t.left), t.value, Inorder(t.right), []);
  }

  /** `while root.parent: root = root.parent`: the loop reaches the root the links lead to. */
  method Climb(z: Zipper) returns (root: Tree)
    ensures root == Whole(z)
  {
    var here := z;
    while here.path != []
      invariant Whole(here) == Whole(z)
      decreases |here.path|
    {
      here := Up(here);
    }
    root := here.focus;
  }

  /** The values the path puts before the node. */
  function Before(path: seq<Frame>): seq<int>
    decreases |path|
  {
    if path == [] then []
    else Before(path[1..]) + (if path[0].side == 1 then Inorder(path[0].sibling) + [path[0].value] else [])
  }

  /** The values the path puts after the node. */
  function After(path: seq<Frame>): seq<int>
    decreases |path|
  {
    if path == [] then []
    else (if path[0].side == 0 then [path[0].value] + Inorder(path[0].sibling) else []) + After(path[1..])
  }

  /** The black counts the path demands of a node of black height `h`. */
  predicate PathBalanced(path: seq<Frame>, h: nat)
    decreases |path|
  {
    path == [] ||
    (Balanced(path[0].sibling) && BlackHeight(path[0].sibling) == h &&
     PathBalanced(path[1..], h + if path[0].color == Black then 1 else 0))
  }

  /** No red-red edge along the path, for a node of colour `c`. */
  predicate PathNoRedRed(path: seq<Frame>, c: Color)
    decreases |path|
  {
    path == [] ||
    (NoRedRed(path[0].sibling) &&
     (path[0].color == Red ==> c == Black && ColorOf(path[0].sibling) == Black) &&
     PathNoRedRed(path[1..], path[0].color))
  }

  /** The colour of the root reached through `path`. */
  function RootColor(t: Tree, path: seq<Frame>): Color
  {
    if path == [] then ColorOf(t) else path[|path| - 1].color
  }

  // ---------------------------------------------------------------------------
  // Lemmas about paths
  // ---------------------------------------------------------------------------

  lemma {:induction false} PlugInorder(t: Tree, path: seq<Frame>)
    ensures Inorder(Plug(t, path)) == Before(path) + Inorder(t) + After(path)
    decreases |path|
  {
    if path != [] {
      PlugInorder(Attach(path[0], t), path[1..]);
    }
  }

  lemma {:induction false} PlugBalanced(t: Tree, path: seq<Frame>)
    ensures Balanced(Plug(t, path)) <==> Balanced(t) && PathBalanced(path, BlackHeight(t))
    decreases |path|
  {
    if path != [] {
      PlugBalanced(Attach(path[0], t), path[1..]);
    }
  }

  lemma {:induction false} PlugNoRedRed(t: Tree, path: seq<Frame>)
    ensures NoRedRed(Plug(t, path)) <==> NoRedRed(t) && PathNoRedRed(path, ColorOf(t))
    decreases |path|
  {
    if path != [] {
      PlugNoRedRed(Attach(path[0], t), path[1..]);
    }
  }

  lemma {:induction false} PlugColor(t: Tree, path: seq<Frame>)
    ensures ColorOf(Plug(t, path)) == RootColor(t, path)
    decreases |path|
  {
    if path != [] {
      PlugColor(Attach(path[0], t), path[1..]);
    }
  }

  lemma {:induction false} PlugSize(t: Tree, path: seq<Frame>)
    ensures Size(t) + |path| <= Size(Plug(t, path))
    decreases |path|
  {
    if path != [] {
      PlugSize(Attach(path[0], t), path[1..]);
    }
  }

  /** A black node is never a red-red conflict with its parent. */
  lemma {:induction false} PathNoRedRedBlack(path: seq<Frame>, c: Color)
    requires PathNoRedRed(path, c)
    ensures PathNoRedRed(path, Black)
  {
  }

  /** Plugging a path above another is plugging their concatenation. */
  lemma {:induction false} PlugAppend(t: Tree, lower: seq<Frame>, upper: seq<Frame>)
    ensures Plug(t, lower + upper) == Plug(Plug(t, lower), upper)
    decreases |lower|
  {
    if lower == [] {
      assert lower + upper == upper;
    } else {
      assert (lower + upper)[1..] == lower[1..] + upper;
      PlugAppend(Attach(lower[0], t), lower[1..], upper);
    }
  }

  lemma {:induction false} BeforeAppend(lower: seq<Frame>, upper: seq<Frame>)
    ensures Before(lower + upper) == Before(upper) + Before(lower)
    decreases |lower|
  {
    if lower == [] {
      assert lower + upper == upper;
    } else {
      assert (lower + upper)[0] == lower[0] && (lower + upper)[1..] == lower[1..] + upper;
      BeforeAppend(lower[1..], upper);
    }
  }

  lemma {:induction false} AfterAppend(lower: seq<Frame>, upper: seq<Frame>)
    ensures After(lower + upper) == After(lower) + After(upper)
    decreases |lower|
  {
    if lower == [] {
      assert lower + upper == upper;
    } else {
      assert (lower + upper)[0] == lower[0] && (lower + upper)[1..] == lower[1..] + upper;
      AfterAppend(lower[1..], upper);
    }
  }

  /** A path that only goes left puts nothing before the node; one that only goes right puts nothing after it. */
  lemma {:induction false} OneSided(path: seq<Frame>, side: Side)
    requires forall i :: 0 <= i < |path| ==> path[i].side == side
    ensures side == 0 ==> Before(path) == []
    ensures side == 1 ==> After(path) == []
    decreases |path|
  {
    if path != [] {
      assert forall i :: 0 <= i < |path[1..]| ==> path[1..][i] == path[i + 1];
      OneSided(path[1..], side);
    }
  }

  /**
   * All the invariants of the whole tree, stated on a node and its path: the
   * tree is red-black exactly when the node and the path each are.
   */
  lemma WholeRedBlack(t: Tree, path: seq<Frame>)
    ensures RedBlack(Plug(t, path)) <==>
      RootColor(t, path) == Black && Balanced(t) && PathBalanced(path, BlackHeight(t)) &&
      NoRedRed(t) && PathNoRedRed(path, ColorOf(t))
  {
    PlugBalanced(t, path);
    PlugNoRedRed(t, path);
    PlugColor(t, path);
  }

  // ---------------------------------------------------------------------------
  // _rotate
  // ---------------------------------------------------------------------------

  /**
   * `_rotate(toward)`: the child at the other side (the usurper) takes the
   * node's place, the node becomes the usurper's child at `toward`, and the
   * usurper's child at `toward` moves over to the node. Colours are kept.
   */
  function Rotate(t: Tree, toward: Side): (r: Tree)
    requires t.Node? && Child(t, 1 - toward).Node?
    ensures r.Node? && Child(r, toward).Node?
  {
    var usurper := Child(t, 1 - toward);
    Join(toward, usurper.color,
         Join(toward, t.color, Child(t, toward), t.value, Child(usurper, toward)),
         usurper.value, Child(usurper, 1 - toward))
  }

  /** The node painted `c` and its child at `side` painted `d`. */
  function Repaint(t: Tree, c: Color, side: Side, d: Color): Tree
    requires t.Node? && Child(t, side).Node?
  {
    Join(side, c, Paint(Child(t, side), d), t.value, Child(t, 1 - side))
  }

  /** A rotation keeps the values in order. */
  lemma RotateInorder(t: Tree, toward: Side)
    requires t.Node? && Child(t, 1 - toward).Node?
    ensures Inorder(Rotate(t, toward)) == Inorder(t)
  {
    var u := Child(t, 1 - toward);
    if toward == 0 {
      assert Inorder(t) == Inorder(t.left) + [t.value] + (Inorder(u.left) + [u.value] + Inorder(u.right));
    } else {
      assert Inorder(t) == (Inorder(u.left) + [u.value] + Inorder(u.right)) + [t.value] + Inorder(t.right);
    }
  }

  /** Rotating back undoes a rotation. */
  lemma RotateBack(t: Tree, toward: Side)
    requires t.Node? && Child(t, 1 - toward).Node?
    ensures Rotate(Rotate(t, toward), 1 - toward) == t
  {
  }
}
