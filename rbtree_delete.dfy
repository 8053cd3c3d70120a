/**
 * Deletion from the red-black tree of `rb_tree.py`: `delete_from`,
 * `delete`, `_delete`, `_findusurper` and `_delete_as_black_leaf` with its
 * four repair cases.
 */
module RedBlackDelete {
  import opened RedBlackTree

  /** The sequence without its first `v`, if it has one. */
  function RemoveOne(s: seq<int>, v: int): seq<int>
  {
    if s == [] then [] else if s[0] == v then s[1..] else [s[0]] + RemoveOne(s[1..], v)
  }

  /** Removing `v` takes exactly one `v` away when there is one, and changes nothing otherwise. */
  lemma {:induction false} RemoveOneMeaning(s: seq<int>, v: int)
    ensures v in s ==> multiset(RemoveOne(s, v)) == multiset(s) - multiset{v}
    ensures v !in s ==> RemoveOne(s, v) == s
    decreases |s|
  {
    if s != [] {
      assert s == [s[0]] + s[1..];
      RemoveOneMeaning(s[1..], v);
    }
  }

  /** Removing `v` keeps a sorted sequence sorted. */
  lemma {:induction false} RemoveOneSorted(s: seq<int>, v: int)
    requires Sorted(s)
    ensures Sorted(RemoveOne(s, v))
    decreases |s|
  {
    if s != [] && s[0] != v {
      var t := s[1..];
      assert s == [s[0]] + t;
      SortedInside([s[0]], t, []);
      RemoveOneSorted(t, v);
      var r := RemoveOne(t, v);
      RemoveOneShrinks(t, v);
      forall i | 0 <= i < |r|
        ensures s[0] <= r[i]
      {
        assert r[i] in multiset(r);
        assert r[i] in t;
        var k :| 0 <= k < |t| && t[k] == r[i];
        assert s[k + 1] == r[i];
      }
      SortedCons(s[0], r);
    }
  }

  lemma {:induction false} RemoveOneShrinks(s: seq<int>, v: int)
    ensures multiset(RemoveOne(s, v)) <= multiset(s)
    decreases |s|
  {
    if s != [] {
      assert s == [s[0]] + s[1..];
      RemoveOneShrinks(s[1..], v);
    }
  }

  /** In a sorted sequence, dropping any `v` is dropping the first one. */
  lemma {:induction false} RemoveAt(s: seq<int>, i: nat, v: int)
    requires Sorted(s) && i < |s| && s[i] == v
    ensures RemoveOne(s, v) == s[..i] + s[i + 1..]
    decreases i
  {
    if s[0] == v {
      RemoveFront(s, i, v);
    } else {
      var t := s[1..];
      SortedInside([s[0]], t, []);
      RemoveAt(t, i - 1, v);
      assert [s[0]] + (t[..i - 1] + t[i..]) == s[..i] + s[i + 1..];
    }
  }

  /** In a sorted sequence starting with `v`, everything up to another `v` is `v` too. */
  lemma RemoveFront(s: seq<int>, i: nat, v: int)
    requires Sorted(s) && i < |s| && s[0] == v && s[i] == v
    ensures s[1..] == s[..i] + s[i + 1..]
  {
    var t := s[..i] + s[i + 1..];
    assert |t| == |s| - 1;
    forall k | 0 <= k < |s| - 1
      ensures s[1..][k] == t[k]
    {
      if k < i {
        assert s[0] <= s[k] <= s[k + 1] <= s[i];
        assert t[k] == s[k];
      } else {
        assert t[k] == s[k + 1];
      }
    }
  }

  lemma {:induction false} RemoveOneAppend(a: seq<int>, b: seq<int>, v: int)
    ensures v in a ==> RemoveOne(a + b, v) == RemoveOne(a, v) + b
    ensures v !in a ==> RemoveOne(a + b, v) == a + RemoveOne(b, v)
    decreases |a|
  {
    if a == [] {
      assert a + b == b;
    } else {
      var ab := a + b;
      assert ab[0] == a[0] && ab[1..] == a[1..] + b;
      if a[0] == v {
        assert RemoveOne(ab, v) == a[1..] + b;
      } else {
        assert RemoveOne(ab, v) == [a[0]] + RemoveOne(a[1..] + b, v);
        assert v in a <==> v in a[1..];
        RemoveOneAppend(a[1..], b, v);
        assert a == [a[0]] + a[1..];
      }
    }
  }

  // ---------------------------------------------------------------------------
  // _findusurper
  // ---------------------------------------------------------------------------

  /** The side `_findusurper` drills toward: left in the right subtree when there is one, else right in the left one. */
  function DrillSide(t: Tree): Side
    requires t.Node?
  {
    if t.right.Node? then 0 else 1
  }

  /**
   * `_findusurper`: the node whose value replaces the focus's: the leftmost
   * node of the right subtree, or the rightmost of the left subtree when
   * there is no right one. The result is positioned by its path, `lower`
   * being the part below the focus's child.
   */
  method FindUsurper(z: Zipper) returns (uz: Zipper, ghost lower: seq<Frame>)
    requires z.focus.Node? && (z.focus.left.Node? || z.focus.right.Node?)
    ensures var x := z.focus; var dir := DrillSide(x);
      uz.focus.Node? && Child(uz.focus, dir).Leaf? &&
      uz.path == lower + [Frame(x.color, x.value, 1 - dir, Child(x, dir))] + z.path &&
      Plug(uz.focus, lower) == Child(x, 1 - dir) &&
      (forall i :: 0 <= i < |lower| ==> lower[i].side == dir)
    ensures z.focus.right.Node? ==> uz.focus.value == Inorder(z.focus.right)[0]
    ensures z.focus.right.Leaf? ==> uz.focus.value == Inorder(z.focus.left)[|Inorder(z.focus.left)| - 1]
  {
    var x := z.focus;
    var dir := DrillSide(x);
    var top := Frame(x.color, x.value, 1 - dir, Child(x, dir));
    uz := Zipper(Child(x, 1 - dir), [top] + z.path);
    lower := [];
    while Child(uz.focus, dir).Node?
      invariant uz.focus.Node?
      invariant uz.path == lower + [top] + z.path
      invariant Plug(uz.focus, lower) == Child(x, 1 - dir)
      invariant forall i :: 0 <= i < |lower| ==> lower[i].side == dir
      decreases Size(uz.focus)
    {
      var d := Down(uz, dir);
      assert Plug(d.focus, [d.path[0]] + lower) == Plug(uz.focus, lower) by {
        assert ([d.path[0]] + lower)[1..] == lower;
        DownWhole(uz, dir);
      }
      lower := [d.path[0]] + lower;
      uz := d;
    }
    UsurperValue(x, uz.focus, lower);
  }

  /** The node at the end of the drill is the first (leftmost) or last (rightmost) value of the subtree. */
  lemma UsurperValue(x: Tree, u: Tree, lower: seq<Frame>)
    requires x.Node? && (x.left.Node? || x.right.Node?) && u.Node? && Child(u, DrillSide(x)).Leaf?
    requires Plug(u, lower) == Child(x, 1 - DrillSide(x))
    requires forall i :: 0 <= i < |lower| ==> lower[i].side == DrillSide(x)
    ensures x.right.Node? ==> u.value == Inorder(x.right)[0]
    ensures x.right.Leaf? ==> u.value == Inorder(x.left)[|Inorder(x.left)| - 1]
  {
    PlugInorder(u, lower);
    OneSided(lower, DrillSide(x));
  }

  // ---------------------------------------------------------------------------
  // _delete
  // ---------------------------------------------------------------------------

  /** `self.value = usurper.value`: the usurper's path with the focus's frame carrying the usurper's value. */
  method Usurp(z: Zipper) returns (next: Zipper)
    requires z.focus.Node? && (z.focus.left.Node? || z.focus.right.Node?) && RedBlack(Whole(z))
    ensures next.focus.Node? && Size(next.focus) < Size(z.focus) && RedBlack(Whole(next))
    ensures Before(next.path) + Inorder(next.focus.left) + Inorder(next.focus.right) + After(next.path) ==
            Before(z.path) + Inorder(z.focus.left) + Inorder(z.focus.right) + After(z.path)
  {
    var uz;
    ghost var lower;
    uz, lower := FindUsurper(z);
    var k := |uz.path| - |z.path| - 1;
    next := Zipper(uz.focus, uz.path[k := uz.path[k].(value := uz.focus.value)]);
    ghost var x := z.focus;
    ghost var dir := DrillSide(x);
    ghost var top := Frame(x.color, uz.focus.value, 1 - dir, Child(x, dir));
    assert next.path == lower + [top] + z.path;
    UsurpFacts(z, uz.focus, lower, top);
  }

  lemma UsurpFacts(z: Zipper, u: Tree, lower: seq<Frame>, top: Frame)
    requires z.focus.Node? && RedBlack(Whole(z))
    requires u.Node? && Child(u, DrillSide(z.focus)).Leaf?
    requires Plug(u, lower) == Child(z.focus, 1 - DrillSide(z.focus))
    requires forall i :: 0 <= i < |lower| ==> lower[i].side == DrillSide(z.focus)
    requires top == Frame(z.focus.color, u.value, 1 - DrillSide(z.focus), Child(z.focus, DrillSide(z.focus)))
    ensures Size(u) < Size(z.focus)
    ensures RedBlack(Plug(u, lower + [top] + z.path))
    ensures Before(lower + [top] + z.path) + Inorder(u.left) + Inorder(u.right) + After(lower + [top] + z.path) ==
            Before(z.path) + Inorder(z.focus.left) + Inorder(z.focus.right) + After(z.path)
  {
    UsurpShape(z, u, lower, top);
    UsurpInorder(z, u, lower, top);
  }

  /** Copying the usurper's value up changes no colour: the tree stays red-black. */
  lemma UsurpShape(z: Zipper, u: Tree, lower: seq<Frame>, top: Frame)
    requires z.focus.Node? && RedBlack(Whole(z)) && u.Node?
    requires Plug(u, lower) == Child(z.focus, 1 - DrillSide(z.focus))
    requires top == Frame(z.focus.color, u.value, 1 - DrillSide(z.focus), Child(z.focus, DrillSide(z.focus)))
    ensures Size(u) < Size(z.focus)
    ensures RedBlack(Plug(u, lower + [top] + z.path))
  {
    var x := z.focus;
    var relabeled := Node(x.color, x.left, u.value, x.right);
    PlugSize(u, lower);
    assert Attach(top, Plug(u, lower)) == relabeled;
    assert Plug(Plug(u, lower), [top]) == relabeled by {
      assert [top][1..] == [];
    }
    PlugAppend(u, lower, [top]);
    PlugAppend(u, lower + [top], z.path);
    WholeRedBlack(relabeled, z.path);
    WholeRedBlack(x, z.path);
  }

  /** After the usurper is removed, the values are the focus's subtree without its own value. */
  lemma UsurpInorder(z: Zipper, u: Tree, lower: seq<Frame>, top: Frame)
    requires z.focus.Node?
    requires u.Node? && Child(u, DrillSide(z.focus)).Leaf?
    requires Plug(u, lower) == Child(z.focus, 1 - DrillSide(z.focus))
    requires forall i :: 0 <= i < |lower| ==> lower[i].side == DrillSide(z.focus)
    requires top == Frame(z.focus.color, u.value, 1 - DrillSide(z.focus), Child(z.focus, DrillSide(z.focus)))
    ensures Before(lower + [top] + z.path) + Inorder(u.left) + Inorder(u.right) + After(lower + [top] + z.path) ==
            Before(z.path) + Inorder(z.focus.left) + Inorder(z.focus.right) + After(z.path)
  {
    var x := z.focus;
    var dir := DrillSide(x);
    var path := lower + [top] + z.path;
    assert Before(path) == Before(z.path) + Before([top]) + Before(lower) by {
      BeforeAppend(lower, [top]);
      BeforeAppend(lower + [top], z.path);
    }
    assert After(path) == After(lower) + After([top]) + After(z.path) by {
      AfterAppend(lower, [top]);
      AfterAppend(lower + [top], z.path);
    }
    assert Inorder(Child(x, 1 - dir)) == Before(lower) + Inorder(u) + After(lower) by {
      PlugInorder(u, lower);
    }
    OneSided(lower, dir);
    assert dir == 1 ==> x.right == Leaf;
    assert [top][1..] == [];
    var bl, al := Before(lower), After(lower);
    var b, a := Before(z.path), After(z.path);
    var ul, ur := Inorder(u.left), Inorder(u.right);
    assert Inorder(u) == ul + [u.value] + ur;
    if dir == 0 {
      assert Before([top]) == Inorder(x.left) + [u.value];
      assert After([top]) == [];
      Reassemble(b, a, Inorder(x.left), Inorder(x.right), u.value, ul, ur, bl, al, Before([top]), After([top]), 0);
    } else {
      assert Before([top]) == [];
      assert After([top]) == [u.value] + Inorder(x.right);
      Reassemble(b, a, Inorder(x.left), Inorder(x.right), u.value, ul, ur, bl, al, Before([top]), After([top]), 1);
    }
  }

  /** The sequence bookkeeping of `UsurpInorder`, on plain sequences. */
  lemma Reassemble(b: seq<int>, a: seq<int>, xl: seq<int>, xr: seq<int>, uv: int, ul: seq<int>, ur: seq<int>,
                   bl: seq<int>, al: seq<int>, bt: seq<int>, at: seq<int>, dir: Side)
    requires dir == 0 ==> bt == xl + [uv] && at == [] && bl == [] && ul == [] && xr == bl + (ul + [uv] + ur) + al
    requires dir == 1 ==> bt == [] && at == [uv] + xr && al == [] && ur == [] && xr == [] && xl == bl + (ul + [uv] + ur) + al
    ensures (b + bt + bl) + ul + ur + (al + at + a) == b + xl + xr + a
  {
  }

  /** A red node never has exactly one child, and a red node is never the root. */
  lemma RedShape(z: Zipper)
    requires z.focus.Node? && z.focus.color == Red && RedBlack(Whole(z))
    ensures z.focus.left.Node? <==> z.focus.right.Node?
    ensures z.path != []
  {
    WholeRedBlack(z.focus, z.path);
  }

  /** Removing a red node with no children: its parent loses that child. */
  lemma RedLeafFacts(z: Zipper)
    requires z.focus.Node? && z.focus.color == Red && z.focus.left.Leaf? && z.focus.right.Leaf?
    requires RedBlack(Whole(z)) && z.path != []
    ensures RedBlack(Whole(Up(Zipper(Leaf, z.path))))
    ensures Inorder(Whole(Up(Zipper(Leaf, z.path)))) == Before(z.path) + After(z.path)
  {
    WholeRedBlack(z.focus, z.path);
    PathNoRedRedBlack(z.path, Red);
    WholeRedBlack(Leaf, z.path);
    PlugInorder(Leaf, z.path);
    assert Whole(Up(Zipper(Leaf, z.path))) == Plug(Leaf, z.path);
  }

  /**
   * `_delete`: removes the focus's value from the tree. A red leaf is
   * unlinked, a black leaf goes through `_delete_as_black_leaf`, and a node
   * with children takes its usurper's value and deletes the usurper.
   */
  method DeleteNode(z: Zipper) returns (r: Zipper)
    requires z.focus.Node? && RedBlack(Whole(z))
    ensures RedBlack(Whole(r))
    ensures Inorder(Whole(r)) == Before(z.path) + Inorder(z.focus.left) + Inorder(z.focus.right) + After(z.path)
    decreases Size(z.focus)
  {
    var x := z.focus;
    var children := (if x.left.Node? then 1 else 0) + (if x.right.Node? then 1 else 0);
    if x.color == Red {
      RedShape(z);
      assert children != 1;
      if children == 0 {
        assert z.path != [];
        RedLeafFacts(z);
        r := Up(Zipper(Leaf, z.path));
      } else {
        var next := Usurp(z);
        r := DeleteNode(next);
      }
    } else {
      if 0 < children {
        var next := Usurp(z);
        r := DeleteNode(next);
      } else {
        r := DeleteAsBlackLeaf(z);
      }
    }
  }

  // ---------------------------------------------------------------------------
  // _delete_as_black_leaf
  // ---------------------------------------------------------------------------

  /** The state of the loop in `_delete_as_black_leaf`: the node's subtree is one black node short. */
  predicate Deficient(z: Zipper)
  {
    ColorOf(z.focus) == Black && Balanced(z.focus) && NoRedRed(z.focus) &&
    PathBalanced(z.path, BlackHeight(z.focus) + 1) &&
    PathNoRedRed(z.path, Black) &&
    (z.path != [] ==> z.path[|z.path| - 1].color == Black)
  }

  /** What a deficient node `n` and its parent `p` satisfy. */
  predicate ShortSide(n: Tree, p: Frame)
  {
    ColorOf(n) == Black && Balanced(n) && NoRedRed(n) &&
    Balanced(p.sibling) && BlackHeight(p.sibling) == BlackHeight(n) + 1 && NoRedRed(p.sibling) &&
    (p.color == Red ==> ColorOf(p.sibling) == Black)
  }

  /** The subtree that replaces the parent's: balanced again, one black node higher on the short side. */
  predicate Repaired(n: Tree, p: Frame, t: Tree)
  {
    Balanced(t) && NoRedRed(t) &&
    BlackHeight(t) == BlackHeight(n) + 1 + (if p.color == Black then 1 else 0) &&
    (ColorOf(t) == p.color || ColorOf(t) == Black) &&
    Inorder(t) == Inorder(Attach(p, n))
  }

  /** Case 4, S black and D red: rotate at P toward N; S takes P's colour, P and D turn black. */
  function Case4(n: Tree, p: Frame): Tree
    requires p.sibling.Node? && Child(p.sibling, 1 - p.side).Node?
  {
    var t := Rotate(Attach(p, n), p.side);
    Join(p.side, p.color, Paint(Child(t, p.side), Black), t.value, Paint(Child(t, 1 - p.side), Black))
  }

  /** Case 3, S and D black and C red: rotate at S away from N; C turns black and S red; then case 4. */
  function Case3(n: Tree, p: Frame): Tree
    requires p.sibling.Node? && Child(p.sibling, p.side).Node?
  {
    var s := Repaint(Rotate(p.sibling, 1 - p.side), Black, 1 - p.side, Red);
    Case4(n, p.(sibling := s))
  }

  /** Case 2, P red and S, C, D black: P turns black and S red. */
  function Case2(n: Tree, p: Frame): Tree
    requires p.sibling.Node?
  {
    Attach(Frame(Black, p.value, p.side, Paint(p.sibling, Red)), n)
  }

  /** The choice among cases 4, 3 and 2 once S is black. */
  function Settle(n: Tree, p: Frame): Tree
    requires p.sibling.Node?
  {
    var s := p.sibling;
    if ColorOf(Child(s, 1 - p.side)) == Red then Case4(n, p)
    else if ColorOf(Child(s, p.side)) == Red then Case3(n, p)
    else Case2(n, p)
  }

  /**
   * Case 1, S red: rotate at P toward N; P turns red and S black; then case
   * 4, 3 or 2 at P, whose sibling is now the old C.
   */
  function Case1(n: Tree, p: Frame): Tree
    requires p.sibling.Node? && Child(p.sibling, p.side).Node?
  {
    var t := Repaint(Rotate(Attach(p, n), p.side), Black, p.side, Red);
    var lowered := Child(t, p.side);
    Join(p.side, t.color, Settle(n, Frame(lowered.color, lowered.value, p.side, Child(lowered, 1 - p.side))),
         t.value, Child(t, 1 - p.side))
  }

  /** The repair once the loop stops below a parent: case 1 when S is red, otherwise cases 4, 3 or 2. */
  function Repair(n: Tree, p: Frame): Tree
    requires p.sibling.Node? && (p.sibling.color == Red ==> Child(p.sibling, p.side).Node?)
  {
    if p.sibling.color == Red then Case1(n, p) else Settle(n, p)
  }

  lemma PaintFacts(t: Tree, c: Color)
    requires t.Node?
    ensures Inorder(Paint(t, c)) == Inorder(t)
    ensures Balanced(Paint(t, c)) == Balanced(t)
    ensures BlackHeight(Paint(t, c)) + (if t.color == Black then 1 else 0) ==
            BlackHeight(t) + (if c == Black then 1 else 0)
  {
  }

  lemma JoinInorder(side: Side, color: Color, near: Tree, value: int, far: Tree)
    ensures Inorder(Join(side, color, near, value, far)) ==
      if side == 0 then Inorder(near) + [value] + Inorder(far) else Inorder(far) + [value] + Inorder(near)
  {
  }

  lemma Case4Facts(n: Tree, p: Frame)
    requires ShortSide(n, p) && p.sibling.Node? && p.sibling.color == Black
    requires ColorOf(Child(p.sibling, 1 - p.side)) == Red
    ensures Repaired(n, p, Case4(n, p)) && ColorOf(Case4(n, p)) == p.color
  {
    var side := p.side;
    var s := p.sibling;
    var c, d := Child(s, side), Child(s, 1 - side);
    JoinFacts(side, Black, c, s.value, d);
    JoinFacts(1 - side, Black, d, s.value, c);
    var t := Rotate(Attach(p, n), side);
    RotateInorder(Attach(p, n), side);
    assert t == Join(side, s.color, Join(side, p.color, n, p.value, c), s.value, d);
    var low := Join(side, Black, n, p.value, c);
    var dd := Paint(d, Black);
    PaintFacts(d, Black);
    PaintFacts(Join(side, p.color, n, p.value, c), Black);
    assert Case4(n, p) == Join(side, p.color, low, s.value, dd);
    JoinFacts(side, Black, n, p.value, c);
    JoinFacts(side, p.color, low, s.value, dd);
    JoinInorder(side, p.color, low, s.value, dd);
    JoinInorder(side, s.color, Join(side, p.color, n, p.value, c), s.value, d);
    JoinInorder(side, Black, n, p.value, c);
    JoinInorder(side, p.color, n, p.value, c);
  }

  lemma Case3Facts(n: Tree, p: Frame)
    requires ShortSide(n, p) && p.sibling.Node? && p.sibling.color == Black
    requires ColorOf(Child(p.sibling, 1 - p.side)) == Black && ColorOf(Child(p.sibling, p.side)) == Red
    ensures Repaired(n, p, Case3(n, p)) && ColorOf(Case3(n, p)) == p.color
  {
    var side := p.side;
    var s := p.sibling;
    var c, d := Child(s, side), Child(s, 1 - side);
    JoinFacts(side, Black, c, s.value, d);
    JoinFacts(1 - side, Black, d, s.value, c);
    JoinFacts(side, Red, Child(c, side), c.value, Child(c, 1 - side));
    var s2 := Repaint(Rotate(s, 1 - side), Black, 1 - side, Red);
    RotateInorder(s, 1 - side);
    var inner := Join(1 - side, Red, d, s.value, Child(c, 1 - side));
    assert s2 == Join(1 - side, Black, inner, c.value, Child(c, side));
    JoinFacts(1 - side, Red, d, s.value, Child(c, 1 - side));
    JoinFacts(1 - side, Black, inner, c.value, Child(c, side));
    assert Inorder(s2) == Inorder(s) by {
      PaintFacts(Join(1 - side, Black, d, s.value, Child(c, 1 - side)), Red);
      JoinInorder(1 - side, c.color, Join(1 - side, Black, d, s.value, Child(c, 1 - side)), c.value, Child(c, side));
      JoinInorder(1 - side, Black, inner, c.value, Child(c, side));
    }
    var p2 := p.(sibling := s2);
    Case4Facts(n, p2);
    JoinInorder(side, p.color, n, p.value, s2);
    JoinInorder(side, p.color, n, p.value, s);
  }

  lemma Case2Facts(n: Tree, p: Frame)
    requires ShortSide(n, p) && p.sibling.Node? && p.sibling.color == Black && p.color == Red
    requires ColorOf(Child(p.sibling, 1 - p.side)) == Black && ColorOf(Child(p.sibling, p.side)) == Black
    ensures Repaired(n, p, Case2(n, p)) && ColorOf(Case2(n, p)) == Black
  {
    var s := p.sibling;
    PaintFacts(s, Red);
    JoinFacts(p.side, Black, n, p.value, Paint(s, Red));
    JoinInorder(p.side, Black, n, p.value, Paint(s, Red));
    JoinInorder(p.side, p.color, n, p.value, s);
  }

  lemma SettleFacts(n: Tree, p: Frame)
    requires ShortSide(n, p) && p.sibling.Node? && p.sibling.color == Black
    requires p.color == Red || ColorOf(Child(p.sibling, 1 - p.side)) == Red || ColorOf(Child(p.sibling, p.side)) == Red
    ensures Repaired(n, p, Settle(n, p))
  {
    var s := p.sibling;
    if ColorOf(Child(s, 1 - p.side)) == Red {
      Case4Facts(n, p);
    } else if ColorOf(Child(s, p.side)) == Red {
      Case3Facts(n, p);
    } else {
      Case2Facts(n, p);
    }
  }

  lemma Case1Facts(n: Tree, p: Frame)
    requires ShortSide(n, p) && p.sibling.Node? && p.sibling.color == Red
    ensures Child(p.sibling, p.side).Node?
    ensures Repaired(n, p, Case1(n, p)) && ColorOf(Case1(n, p)) == Black
  {
    var side := p.side;
    var s := p.sibling;
    var c, d := Child(s, side), Child(s, 1 - side);
    JoinFacts(side, Red, c, s.value, d);
    assert c.Node?;
    var t := Repaint(Rotate(Attach(p, n), side), Black, side, Red);
    RotateInorder(Attach(p, n), side);
    var lowered := Join(side, Red, n, p.value, c);
    assert t == Join(side, Black, lowered, s.value, d);
    var p2 := Frame(Red, p.value, side, c);
    assert Attach(p2, n) == lowered;
    SettleFacts(n, p2);
    var fixed := Settle(n, p2);
    assert Case1(n, p) == Join(side, Black, fixed, s.value, d);
    JoinFacts(side, Black, fixed, s.value, d);
    JoinInorder(side, Black, fixed, s.value, d);
    JoinInorder(side, Black, lowered, s.value, d);
    PaintFacts(Join(side, p.color, n, p.value, c), Red);
    JoinInorder(side, s.color, Join(side, p.color, n, p.value, c), s.value, d);
  }

  lemma RepairFacts(n: Tree, p: Frame)
    requires ShortSide(n, p) && p.sibling.Node?
    requires p.sibling.color == Red || p.color == Red ||
             ColorOf(Child(p.sibling, 1 - p.side)) == Red || ColorOf(Child(p.sibling, p.side)) == Red
    ensures p.sibling.color == Red ==> Child(p.sibling, p.side).Node?
    ensures Repaired(n, p, Repair(n, p))
  {
    if p.sibling.color == Red {
      Case1Facts(n, p);
    } else {
      SettleFacts(n, p);
    }
  }

  /** The first step of the loop: the unlinked black leaf leaves its place one black node short. */
  lemma UnlinkFacts(z: Zipper)
    requires z.focus.Node? && z.focus.color == Black && z.focus.left.Leaf? && z.focus.right.Leaf?
    requires RedBlack(Whole(z))
    ensures Deficient(Zipper(Leaf, z.path))
    ensures Inorder(Whole(Zipper(Leaf, z.path))) == Before(z.path) + After(z.path)
  {
    WholeRedBlack(z.focus, z.path);
    PlugInorder(Leaf, z.path);
  }

  /** `S.color = RED; N = P; P = N.parent`: the shortage moves one level up. */
  lemma PassUpFacts(here: Zipper)
    requires Deficient(here) && here.path != []
    requires var p := here.path[0];
      p.color == Black && p.sibling.Node? && p.sibling.color == Black &&
      ColorOf(Child(p.sibling, 1 - p.side)) == Black && ColorOf(Child(p.sibling, p.side)) == Black
    ensures var p := here.path[0];
      var next := Up(Zipper(here.focus, [p.(sibling := Paint(p.sibling, Red))] + here.path[1..]));
      Deficient(next) && Inorder(Whole(next)) == Inorder(Whole(here))
  {
    var p := here.path[0];
    var n := here.focus;
    var rest := here.path[1..];
    var q := p.(sibling := Paint(p.sibling, Red));
    assert ([q] + rest)[0] == q && ([q] + rest)[1..] == rest;
    assert ShortSide(n, p);
    PassUpNode(n, p);
    assert Whole(here) == Plug(Attach(p, n), rest);
    assert Inorder(Plug(Attach(q, n), rest)) == Inorder(Plug(Attach(p, n), rest)) by {
      PlugInorder(Attach(q, n), rest);
      PlugInorder(Attach(p, n), rest);
    }
  }

  /** The parent with its black sibling painted red: black, balanced, one level higher, same values. */
  lemma PassUpNode(n: Tree, p: Frame)
    requires ShortSide(n, p) && p.color == Black && p.sibling.Node? && p.sibling.color == Black
    requires ColorOf(Child(p.sibling, 1 - p.side)) == Black && ColorOf(Child(p.sibling, p.side)) == Black
    ensures var t := Attach(p.(sibling := Paint(p.sibling, Red)), n);
      ColorOf(t) == Black && Balanced(t) && NoRedRed(t) && BlackHeight(t) == BlackHeight(n) + 1 &&
      Inorder(t) == Inorder(Attach(p, n))
  {
    var s := p.sibling;
    JoinFacts(p.side, Black, Child(s, p.side), s.value, Child(s, 1 - p.side));
    PaintFacts(s, Red);
    JoinFacts(p.side, Black, n, p.value, Paint(s, Red));
    JoinInorder(p.side, Black, n, p.value, Paint(s, Red));
    JoinInorder(p.side, Black, n, p.value, s);
  }

  /** Once the loop stops below a parent, the repaired subtree takes the parent's place. */
  lemma SettledFacts(here: Zipper)
    requires Deficient(here) && here.path != []
    requires var p := here.path[0];
      p.sibling.Node? &&
      (p.sibling.color == Red || p.color == Red ||
       ColorOf(Child(p.sibling, 1 - p.side)) == Red || ColorOf(Child(p.sibling, p.side)) == Red)
    ensures var p := here.path[0];
      (p.sibling.color == Red ==> Child(p.sibling, p.side).Node?) &&
      RedBlack(Plug(Repair(here.focus, p), here.path[1..])) &&
      Inorder(Plug(Repair(here.focus, p), here.path[1..])) == Inorder(Whole(here))
  {
    var p := here.path[0];
    var n := here.focus;
    var rest := here.path[1..];
    assert ShortSide(n, p);
    RepairFacts(n, p);
    var t := Repair(n, p);
    PathNoRedRedBlack(rest, p.color);
    WholeRedBlack(t, rest);
    PlugInorder(t, rest);
    PlugInorder(Attach(p, n), rest);
    assert Whole(here) == Plug(Attach(p, n), rest);
    if rest != [] {
      assert rest[|rest| - 1] == here.path[|here.path| - 1];
    }
  }

  /**
   * `_delete_as_black_leaf`: unlinks a black leaf, then walks the shortage
   * of one black node up the path, painting black siblings red, until a
   * red node nearby repairs it (cases 1 to 4) or the root is reached.
   */
  method DeleteAsBlackLeaf(z: Zipper) returns (r: Zipper)
    requires z.focus.Node? && z.focus.color == Black && z.focus.left.Leaf? && z.focus.right.Leaf?
    requires RedBlack(Whole(z))
    ensures RedBlack(Whole(r))
    ensures Inorder(Whole(r)) == Before(z.path) + After(z.path)
    ensures z.path == [] ==> r == Zipper(Leaf, [])
  {
    if z.path == [] {
      // the final node removed
      return Zipper(Leaf, []);
    }
    UnlinkFacts(z);
    var here := Zipper(Leaf, z.path);
    while here.path != []
      invariant Deficient(here)
      invariant Inorder(Whole(here)) == Before(z.path) + After(z.path)
      decreases |here.path|
    {
      var p := here.path[0];
      var s := p.sibling;
      assert s.Node?;
      if s.color == Red || ColorOf(Child(s, 1 - p.side)) == Red ||
         ColorOf(Child(s, p.side)) == Red || p.color == Red {
        SettledFacts(here);
        return Zipper(Repair(here.focus, p), here.path[1..]);
      }
      PassUpFacts(here);
      here := Up(Zipper(here.focus, [p.(sibling := Paint(s, Red))] + here.path[1..]));
    }
    r := here;
  }

  // ---------------------------------------------------------------------------
  // delete and delete_from
  // ---------------------------------------------------------------------------

  /** Searching left: a smaller `v` can only be in the left subtree. */
  lemma SearchLeft(l: seq<int>, x: int, r: seq<int>, v: int)
    requires v < x && forall y :: y in r ==> x <= y
    ensures v in l + [x] + r <==> v in l
    ensures RemoveOne(l + [x] + r, v) == RemoveOne(l, v) + [x] + r
  {
    assert v !in [x] + r;
    assert l + [x] + r == l + ([x] + r);
    RemoveOneAppend(l, [x] + r, v);
    if v !in l {
      RemoveOneMeaning(l, v);
      RemoveOneMeaning([x] + r, v);
    }
  }

  /** Searching right: a larger `v` can only be in the right subtree. */
  lemma SearchRight(l: seq<int>, x: int, r: seq<int>, v: int)
    requires x < v && forall y :: y in l ==> y <= x
    ensures v in l + [x] + r <==> v in r
    ensures RemoveOne(l + [x] + r, v) == l + [x] + RemoveOne(r, v)
  {
    assert v !in l + [x];
    RemoveOneAppend(l + [x], r, v);
  }

  /** The search goes down one side: what is deleted there is what is deleted from the focus's subtree. */
  lemma SearchDown(z: Zipper, v: int, side: Side, got: seq<int>)
    requires z.focus.Node? && Sorted(Inorder(Whole(z)))
    requires side == 0 ==> v < z.focus.value
    requires side == 1 ==> z.focus.value < v
    requires got == Before(Down(z, side).path) + RemoveOne(Inorder(Child(z.focus, side)), v) + After(Down(z, side).path)
    ensures got == Before(z.path) + RemoveOne(Inorder(z.focus), v) + After(z.path)
    ensures v in Inorder(z.focus) <==> v in Inorder(Child(z.focus, side))
  {
    var x := z.focus;
    FocusSorted(z);
    NodeSeparates(x);
    DownSides(z, side);
    var b, a := Before(z.path), After(z.path);
    var l, r := Inorder(x.left), Inorder(x.right);
    if side == 0 {
      SearchLeft(l, x.value, r, v);
      Regroup(b, RemoveOne(l, v), [x.value] + r, a);
    } else {
      SearchRight(l, x.value, r, v);
      Regroup(b, l + [x.value], RemoveOne(r, v), a);
    }
  }

  /** Sequence bookkeeping for `SearchDown`. */
  lemma Regroup(b: seq<int>, m: seq<int>, n: seq<int>, a: seq<int>)
    ensures b + m + (n + a) == b + (m + n) + a
    ensures b + m + n + a == b + (m + n) + a
  {
  }

  /** The search finds `v` at the focus: the focus's own value is the one removed. */
  lemma SearchHit(z: Zipper, v: int)
    requires z.focus.Node? && Sorted(Inorder(Whole(z))) && z.focus.value == v
    ensures RemoveOne(Inorder(z.focus), v) == Inorder(z.focus.left) + Inorder(z.focus.right)
  {
    var x := z.focus;
    FocusSorted(z);
    RemoveAt(Inorder(x), |Inorder(x.left)|, v);
    assert Inorder(x)[..|Inorder(x.left)|] == Inorder(x.left);
    assert Inorder(x)[|Inorder(x.left)| + 1..] == Inorder(x.right);
  }

  /** The search stops at a missing child: `v` is not in the focus's subtree. */
  lemma SearchMiss(z: Zipper, v: int)
    requires z.focus.Node? && Sorted(Inorder(Whole(z))) && z.focus.value != v
    requires v < z.focus.value ==> z.focus.left.Leaf?
    requires z.focus.value < v ==> z.focus.right.Leaf?
    ensures v !in Inorder(z.focus)
    ensures Inorder(Whole(z)) == Before(z.path) + RemoveOne(Inorder(z.focus), v) + After(z.path)
  {
    var x := z.focus;
    FocusSorted(z);
    NodeSeparates(x);
    if v < x.value {
      SearchLeft(Inorder(x.left), x.value, Inorder(x.right), v);
    } else {
      SearchRight(Inorder(x.left), x.value, Inorder(x.right), v);
    }
    RemoveOneMeaning(Inorder(x), v);
    PlugInorder(x, z.path);
  }

  /** `delete`: searches for `v` and deletes the first node on the way that holds it. */
  method Delete(z: Zipper, v: int) returns (r: Zipper)
    requires z.focus.Node? && RedBlack(Whole(z)) && Sorted(Inorder(Whole(z)))
    ensures RedBlack(Whole(r))
    ensures v !in Inorder(z.focus) ==> Whole(r) == Whole(z)
    ensures Inorder(Whole(r)) == Before(z.path) + RemoveOne(Inorder(z.focus), v) + After(z.path)
    decreases Size(z.focus)
  {
    var x := z.focus;
    if v == x.value {
      r := DeleteNode(z);
      SearchHit(z, v);
    } else if v < x.value && x.left.Node? {
      var d := Down(z, 0);
      DownWhole(z, 0);
      r := Delete(d, v);
      SearchDown(z, v, 0, Inorder(Whole(r)));
    } else if x.value < v && x.right.Node? {
      var d := Down(z, 1);
      DownWhole(z, 1);
      r := Delete(d, v);
      SearchDown(z, v, 1, Inorder(Whole(r)));
    } else {
      SearchMiss(z, v);
      r := z;
    }
  }

  /** `delete_from`: the root of the tree with one `v` removed; `Leaf` is the empty tree. */
  method DeleteFrom(root: Tree, v: int) returns (r: Tree)
    requires Valid(root)
    ensures Valid(r)
    ensures Inorder(r) == RemoveOne(Inorder(root), v)
    ensures v !in Inorder(root) ==> r == root
    ensures Inorder(root) == [v] ==> r == Leaf
  {
    if root.Leaf? {
      return Leaf;
    }
    var survivor := Delete(Zipper(root, []), v);
    r := Climb(survivor);
    RemoveOneMeaning(Inorder(root), v);
    RemoveOneSorted(Inorder(root), v);
  }
}
