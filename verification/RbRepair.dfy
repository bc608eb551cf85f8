/** The steps of rb_insert_color, __rb_erase_color and rb_erase on shapes and on cells:
    what each recolouring, rotation and splice does to the red-black invariants,
    to the in-order sequence and to the layout in memory. */
module RbRepair {
  import opened RbShape
  import opened Sequences

  function WithLeft(m: Mem, x: Ptr, q: Ptr): Mem
    requires x in m
  {
    m[x := m[x].(left := q)]
  }

  function WithRight(m: Mem, x: Ptr, q: Ptr): Mem
    requires x in m
  {
    m[x := m[x].(right := q)]
  }

  /** rb_set_parent */
  function WithParent(m: Mem, x: Ptr, q: Ptr): Mem
    requires x in m
  {
    m[x := m[x].(parent := q)]
  }

  /** rb_set_color, rb_set_red and rb_set_black */
  function WithColor(m: Mem, x: Ptr, c: Color): Mem
    requires x in m
  {
    m[x := m[x].(color := c)]
  }

  ghost predicate SameNodes(t: Tree, t': Tree) {
    Nodes(t) == Nodes(t') && Inorder(t) == Inorder(t')
  }

  /** Cells outside s are the same in both memories. */
  ghost predicate Within(m: Mem, m': Mem, s: set<Ptr>) {
    m.Keys == m'.Keys && forall x :: x in m && x !in s ==> m'[x] == m[x]
  }

  function Near(d: Side, c: Cell): Ptr {
    if d == L then c.left else c.right
  }

  function WithChild(d: Side, c: Cell, q: Ptr): Cell {
    if d == L then c.(left := q) else c.(right := q)
  }

  /** The cells a rotation of x towards d touches exist and are distinct. */
  ghost predicate RelinkReady(d: Side, m: Mem, x: Ptr)
    requires x in m
  {
    var (y, q) := (Near(Other(d), m[x]), m[x].parent);
    && y in m && y != x && q != x && q != y
    && (q != NULL ==> q in m && (Near(d, m[q]) != x ==> Near(Other(d), m[q]) == x))
    && var b := Near(d, m[y]);
    b != NULL ==> b in m && b != x && b != y && b != q
  }

  ghost predicate Relinked(d: Side, m: Mem, m': Mem, x: Ptr)
    requires x in m && RelinkReady(d, m, x)
  {
    var (y, q) := (Near(Other(d), m[x]), m[x].parent);
    var b := Near(d, m[y]);
    && m'.Keys == m.Keys
    && m'[x] == WithChild(Other(d), m[x], b).(parent := y)
    && m'[y] == WithChild(d, m[y], x).(parent := q)
    && (b != NULL ==> m'[b] == m[b].(parent := x))
    && (q != NULL ==> m'[q] == WithChild(if Near(d, m[q]) == x then d else Other(d), m[q], y))
    && forall z :: z in m && z != x && z != y && z != b && z != q ==> m'[z] == m[z]
  }

  ghost predicate HoldsRoot(m: Mem, t: Tree, q: Ptr) {
    t.Node? ==> t.id != NULL && t.id in m && m[t.id] == Cell(Root(t.left), Root(t.right), q, t.color)
  }

  ghost predicate LooksLike(m: Mem, p: Path, t: Tree) {
    && HoldsRoot(m, t, ParentPtr(p))
    && (p.In? ==>
          && p.id != NULL && p.id in m && m[p.id] == PathCell(p, Root(t))
          && HoldsRoot(m, p.sibling, p.id)
          && (t.Node? || p.sibling.Node? ==> Root(t) != Root(p.sibling)))
  }

  // ----- insertion

  /** The state of rb_insert_color's loop: everything is in order except that the
      red node in focus may have a red parent or may be the root. */
  ghost predicate RedFocus(p: Path, t: Tree) {
    && t.Node? && t.color.Red? && NoRedRed(t) && PathNoRedRed(p)
    && Balanced(t, BlackHeight(t)) && PathBalanced(p, BlackHeight(t))
  }

  ghost predicate RedParent(d: Side, p: Path, t: Tree) {
    RedFocus(p, t) && p.In? && p.color.Red? && p.up.In? && p.up.side == d
  }

  lemma RedParentHasParent(p: Path, t: Tree)
    requires RedFocus(p, t) && p.In? && p.color.Red?
    ensures p.up.In? && p.up.color.Black? && Depth(p) == 2 + Depth(p.up.up)
    ensures Plug(p, t) == Plug(p.up, Join(p.side, t, p.id, p.color, p.sibling))
  {
  }

  /** Red uncle: blacken parent and uncle, redden the grandparent. */
  function FlipColors(p: Path, t: Tree): Tree
    requires p.In? && p.up.In? && p.up.sibling.Node?
  {
    Join(p.up.side, Join(p.side, t, p.id, Black, p.sibling), p.up.id, Red, p.up.sibling.(color := Black))
  }

  lemma FlipColorsKeeps(p: Path, t: Tree)
    requires p.In? && p.up.In? && RedParent(p.up.side, p, t) && !IsBlack(p.up.sibling)
    ensures RedFocus(p.up.up, FlipColors(p, t))
  {
    var h := BlackHeight(t);
    assert PathNoRedRed(p.up) && PathBalanced(p.up, h);
    BalancedHeight(FlipColors(p, t), h + 1);
  }

  /** Inner grandchild: after rotating the parent, the old parent is the red node in focus. */
  lemma InnerRotated(d: Side, p: Path, t: Tree)
    requires RedParent(d, p, t) && p.side == Other(d)
    ensures
      var t' := Join(d, p.sibling, p.id, Red, Child(d, t));
      var p' := In(d, t.id, Red, Child(Other(d), t), p.up);
      && RedParent(d, p', t')
      && Rotate(d, Join(p.side, t, p.id, p.color, p.sibling)) == Join(d, t', t.id, Red, Child(Other(d), t))
  {
    var t' := Join(d, p.sibling, p.id, Red, Child(d, t));
    BalancedHeight(t', BlackHeight(t));
  }

  /** Outer grandchild with a black uncle: recolouring and rotating the grandparent ends the loop. */
  lemma OuterRotated(d: Side, p: Path, t: Tree)
    requires RedParent(d, p, t) && p.side == d && IsBlack(p.up.sibling)
    ensures
      var far := Join(d, p.sibling, p.up.id, Red, p.up.sibling);
      && RedFocus(In(d, p.id, Black, far, p.up.up), t)
      && Rotate(Other(d), Join(d, Join(d, t, p.id, Black, p.sibling), p.up.id, Red, p.up.sibling))
         == Join(d, t, p.id, Black, far)
  {
    assert PathNoRedRed(p.up) && PathBalanced(p.up, BlackHeight(t));
  }

  lemma FocusDone(p: Path, t: Tree)
    requires RedFocus(p, t) && (p.In? ==> p.color.Black?)
    ensures Plug(p, t).Node? && RedBlack(Plug(p, t).(color := Black))
  {
    if p.Top? {
      BalancedHeight(t.(color := Black), BlackHeight(t) + 1);
    } else {
      PlugNoRedRed(p, t);
      PlugBalanced(p, t, BlackHeight(t));
      RootAbove(p, t);
    }
  }

  // ----- erasure

  function Blackened(t: Tree): Tree {
    if t.Leaf? then t else t.(color := Black)
  }

  /** The state of __rb_erase_color's loop: the tree is in order except that the
      subtree in focus has one black node too few, unless its red root is blackened. */
  ghost predicate Short(p: Path, t: Tree) {
    && NoRedRed(Blackened(t)) && PathNoRedRed(p)
    && Balanced(t, BlackHeight(t)) && PathBalanced(p, BlackHeight(t) + 1)
  }

  ghost function Rank(p: Path, t: Tree): nat {
    if IsBlack(t) && p.In? then 1 + Depth(p) else 0
  }

  lemma SiblingExists(p: Path, t: Tree)
    requires Short(p, t) && p.In?
    ensures p.sibling.Node?
  {
    BalancedHeight(t, BlackHeight(t));
  }

  /** The path after a red sibling has been rotated above the parent. */
  function Lowered(p: Path): Path
    requires p.In? && p.sibling.Node?
  {
    var (d, s) := (p.side, p.sibling);
    In(d, p.id, Red, Child(d, s), In(d, s.id, Black, Child(Other(d), s), p.up))
  }

  lemma RedSibling(p: Path, t: Tree)
    requires Short(p, t) && p.In? && !IsBlack(p.sibling)
    ensures p.color.Black? && Short(Lowered(p), t) && IsBlack(Lowered(p).sibling)
    ensures Lowered(p).sibling.Node?
    ensures
      var (d, s) := (p.side, p.sibling);
      Rotate(d, Join(d, t, p.id, Red, s.(color := Black)))
        == Join(d, Join(d, t, p.id, Red, Child(d, s)), s.id, Black, Child(Other(d), s))
  {
    SiblingExists(Lowered(p), t);
  }

  /** Black sibling with black children: redden it and move up. */
  lemma BlackNephews(p: Path, t: Tree)
    requires Short(p, t) && IsBlack(t) && p.In? && p.sibling.Node? && p.sibling.color.Black?
    requires IsBlack(p.sibling.left) && IsBlack(p.sibling.right)
    ensures Short(p.up, Join(p.side, t, p.id, p.color, p.sibling.(color := Red)))
  {
    BalancedHeight(Join(p.side, t, p.id, p.color, p.sibling.(color := Red)), BlackHeight(t) + Weight(p.color));
  }

  /** A black sibling whose near child is red, rotated so that its far child is red. */
  function Straightened(d: Side, s: Tree): Tree
    requires s.Node? && Child(d, s).Node?
  {
    var near := Child(d, s);
    Join(d, Child(d, near), near.id, Black, Join(d, Child(Other(d), near), s.id, Red, Child(Other(d), s)))
  }

  lemma NearNephew(p: Path, t: Tree)
    requires Short(p, t) && p.In? && p.sibling.Node? && p.sibling.color.Black?
    requires !IsBlack(Child(p.side, p.sibling)) && IsBlack(Child(Other(p.side), p.sibling))
    ensures
      var (d, s) := (p.side, p.sibling);
      var (near, far) := (Child(d, s), Child(Other(d), s));
      && Short(p.(sibling := Straightened(d, s)), t)
      && Rotate(Other(d), Join(d, near.(color := Black), s.id, Red, far)) == Straightened(d, s)
  {
    var (d, s, h) := (p.side, p.sibling, BlackHeight(t));
    var (near, far) := (Child(d, s), Child(Other(d), s));
    assert Balanced(near, h) && Balanced(far, h) && NoRedRed(near) && NoRedRed(far);
    var low := Join(d, Child(Other(d), near), s.id, Red, far);
    assert Balanced(low, h) && NoRedRed(low);
    assert Balanced(Straightened(d, s), h + 1) && NoRedRed(Straightened(d, s));
  }

  /** Black sibling with a red far child: one rotation restores the invariants. */
  lemma FarNephew(p: Path, t: Tree)
    requires Short(p, t) && IsBlack(t) && p.In? && p.sibling.Node? && p.sibling.color.Black?
    requires !IsBlack(Child(Other(p.side), p.sibling))
    ensures
      var (d, s) := (p.side, p.sibling);
      var (near, far) := (Child(d, s), Child(Other(d), s));
      RedBlack(Plug(p.up, Rotate(d, Join(d, t, p.id, Black, Join(d, near, s.id, p.color, far.(color := Black))))))
  {
    var (d, s, h) := (p.side, p.sibling, BlackHeight(t));
    var (near, far) := (Child(d, s), Child(Other(d), s));
    assert Balanced(near, h) && Balanced(far, h) && NoRedRed(near) && NoRedRed(far);
    var low := Join(d, t, p.id, Black, near);
    assert Balanced(low, h + 1) && NoRedRed(low) && Balanced(far.(color := Black), h + 1);
    var u := Join(d, low, s.id, p.color, far.(color := Black));
    PlugNoRedRed(p.up, u);
    PlugBalanced(p.up, u, h + 1 + Weight(p.color));
  }

  lemma ShortDone(p: Path, t: Tree)
    requires Short(p, t) && (p.Top? || !IsBlack(t))
    ensures RedBlack(Plug(p, Blackened(t)))
  {
    var h := if IsBlack(t) then BlackHeight(t) else BlackHeight(t) + 1;
    PlugNoRedRed(p, Blackened(t));
    PlugBalanced(p, Blackened(t), h);
  }

  /** The only child of a node, or the leaf in its place. */
  ghost predicate OnlyChild(t: Tree, u: Tree) {
    t.Node? && ((t.left.Leaf? && u == t.right) || (t.right.Leaf? && u == t.left))
  }

  lemma OnlyChildLevel(t: Tree, u: Tree)
    requires OnlyChild(t, u) && Balanced(t, BlackHeight(t)) && NoRedRed(t)
    ensures BlackHeight(u) == BlackHeight(t) - Weight(t.color) && Balanced(u, BlackHeight(u))
    ensures NoRedRed(u) && (t.color.Red? ==> IsBlack(u))
  {
    var h := BlackHeight(t) - Weight(t.color);
    assert Balanced(t.left, h) && Balanced(t.right, h);
    BalancedHeight(u, h);
  }

  lemma BlackenedKeeps(u: Tree)
    requires NoRedRed(u)
    ensures NoRedRed(Blackened(u))
  {
  }

  lemma RemoveRed(p: Path, t: Tree, u: Tree)
    requires RedBlack(Plug(p, t)) && OnlyChild(t, u) && t.color.Red?
    ensures RedBlack(Plug(p, u))
  {
    BalancedAt(p, t);
    PlugNoRedRed(p, t);
    OnlyChildLevel(t, u);
    PlugNoRedRed(p, u);
    PlugBalanced(p, u, BlackHeight(u));
  }

  lemma RemoveBlack(p: Path, t: Tree, u: Tree)
    requires RedBlack(Plug(p, t)) && OnlyChild(t, u) && t.color.Black?
    ensures Short(p, u)
  {
    BalancedAt(p, t);
    PlugNoRedRed(p, t);
    OnlyChildLevel(t, u);
    BlackenedKeeps(u);
  }

  /** Taking out a node that lacks a child: a red one leaves a valid tree, a black one a
      short subtree. */
  lemma RemoveOne(p: Path, t: Tree, u: Tree)
    requires RedBlack(Plug(p, t)) && t.Node?
    requires (t.left.Leaf? && u == t.right) || (t.right.Leaf? && u == t.left)
    ensures if t.color.Red? then RedBlack(Plug(p, u)) else Short(p, u)
  {
    if t.color.Red? {
      RemoveRed(p, t, u);
    } else {
      RemoveBlack(p, t, u);
    }
  }

  lemma BalancedAt(p: Path, t: Tree)
    requires Balanced(Plug(p, t), BlackHeight(Plug(p, t)))
    ensures Balanced(t, BlackHeight(t)) && PathBalanced(p, BlackHeight(t))
  {
    if forall h :: !Balanced(t, h) {
      PlugUnbalanced(p, t);
      assert false;
    }
    var h :| Balanced(t, h);
    BalancedHeight(t, h);
    PlugBalanced(p, t, h);
  }

  lemma RemoveSuccessor(p: Path, t: Tree, q: Path, v: Tree)
    requires RedBlack(Plug(p, t)) && t.Node? && t.right == Plug(q, v) && v.Node? && v.left.Leaf?
    ensures
      var full := Append(q, In(R, v.id, t.color, t.left, p));
      && Plug(full, v.right) == Plug(p, t.(id := v.id, right := Plug(q, v.right)))
      && if v.color.Red? then RedBlack(Plug(full, v.right)) else Short(full, v.right)
  {
    var base := In(R, t.id, t.color, t.left, p);
    var base' := In(R, v.id, t.color, t.left, p);
    PlugAppend(q, base, v);
    PlugAppend(q, base', v.right);
    RemoveOne(Append(q, base), v, v.right);
    if v.color.Red? {
      BalancedAt(Append(q, base), v.right);
      AppendRecolourFree(q, t.id, v.id, R, t.color, t.left, p, BlackHeight(v.right));
      PlugNoRedRed(Append(q, base), v.right);
      PlugNoRedRed(Append(q, base'), v.right);
      PlugBalanced(Append(q, base'), v.right, BlackHeight(v.right));
    } else {
      AppendRecolourFree(q, t.id, v.id, R, t.color, t.left, p, BlackHeight(v.right) + 1);
    }
  }

  lemma Regroup(a: seq<Ptr>, l: seq<Ptr>, x: Ptr, r: seq<Ptr>, b: seq<Ptr>)
    ensures a + (l + [x] + r) + b == (a + l) + [x] + (r + b)
  {
  }

  /** The in-order sequence without the root of t, which occurs once in a linked tree. */
  lemma WithoutFocus(m: Mem, p: Path, t: Tree)
    requires Laid(m, Plug(p, t), NULL) && t.Node?
    ensures Without(Inorder(Plug(p, t)), t.id) == (Before(p) + Inorder(t.left)) + (Inorder(t.right) + After(p))
  {
    LaidDistinct(m, Plug(p, t), NULL);
    InorderPlug(p, t);
    Regroup(Before(p), Inorder(t.left), t.id, Inorder(t.right), After(p));
    SplitOut(Inorder(Plug(p, t)), Before(p) + Inorder(t.left), t.id, Inorder(t.right) + After(p));
  }

  lemma RemoveOneInorder(m: Mem, p: Path, t: Tree, u: Tree)
    requires Laid(m, Plug(p, t), NULL) && t.Node?
    requires (t.left.Leaf? && u == t.right) || (t.right.Leaf? && u == t.left)
    ensures Inorder(Plug(p, u)) == Without(Inorder(Plug(p, t)), t.id)
  {
    InorderPlug(p, u);
    WithoutFocus(m, p, t);
  }

  lemma RemoveSuccessorInorder(m: Mem, p: Path, t: Tree, q: Path, v: Tree)
    requires Laid(m, Plug(p, t), NULL) && t.Node? && t.right == Plug(q, v) && Before(q) == [] && v.Node? && v.left.Leaf?
    ensures Inorder(Plug(p, t.(id := v.id, right := Plug(q, v.right)))) == Without(Inorder(Plug(p, t)), t.id)
  {
    var t' := t.(id := v.id, right := Plug(q, v.right));
    WithoutFocus(m, p, t);
    InorderPlug(p, t');
    Regroup(Before(p), Inorder(t.left), v.id, Inorder(t'.right), After(p));
    SuccessorFirst(q, v);
    Front(Before(p) + Inorder(t.left), v.id, Inorder(t'.right), After(p));
  }

  lemma SuccessorFirst(q: Path, v: Tree)
    requires Before(q) == [] && v.Node? && v.left.Leaf?
    ensures Inorder(Plug(q, v)) == [v.id] + Inorder(Plug(q, v.right))
  {
    InorderPlug(q, v);
    InorderPlug(q, v.right);
    LeadingEmpty(v.id, Inorder(v.right), After(q));
  }

  lemma LeadingEmpty(x: Ptr, r: seq<Ptr>, b: seq<Ptr>)
    ensures [] + ([] + [x] + r) + b == [x] + ([] + r + b)
  {
  }

  lemma Front(a: seq<Ptr>, x: Ptr, r: seq<Ptr>, b: seq<Ptr>)
    ensures a + [x] + (r + b) == a + (([x] + r) + b)
  {
  }

  lemma {:induction false} WithoutMember(s: seq<Ptr>, x: Ptr, y: Ptr)
    ensures y in Without(s, x) <==> y in s && y != x
  {
    if s != [] {
      WithoutMember(s[1..], x, y);
    }
  }

  /** Two trees whose sequences differ by x have node sets that differ by x. */
  lemma NodesWithout(t: Tree, t': Tree, x: Ptr)
    requires Inorder(t') == Without(Inorder(t), x)
    ensures Nodes(t') == Nodes(t) - {x}
  {
    forall y
      ensures y in Nodes(t') <==> y in Nodes(t) - {x}
    {
      InorderNodes(t, y);
      InorderNodes(t', y);
      WithoutMember(Inorder(t), x, y);
    }
  }

  lemma SpliceFacts(m: Mem, p: Path, t: Tree, u: Tree)
    requires Laid(m, Plug(p, t), NULL) && t.Node? && (u == t.left || u == t.right)
    ensures u.Node? ==> u.id != ParentPtr(p) && u.id in Nodes(Plug(p, t))
    ensures p.In? ==> p.id in Nodes(Plug(p, t))
  {
    PlugLaid(m, p, t);
    NodesPlug(p, t);
    LaidKeys(m, u, t.id);
    RootIn(u);
    assert u.Node? ==> u.id in Nodes(t);
    assert p.In? ==> p.id in PathNodes(p);
  }

  lemma ReplaceFacts(m: Mem, p: Path, t: Tree)
    requires Laid(m, Plug(p, t), NULL) && t.Node?
    ensures t.left.Node? && t.right.Node? ==> t.left.id != t.right.id
    ensures t.id in Nodes(Plug(p, t)) && (t.left.Node? ==> t.left.id != t.id) && (t.right.Node? ==> t.right.id != t.id)
    ensures p.In? ==> p.id != t.id
    ensures t.left.Node? ==> t.left.id != ParentPtr(p) && t.left.id in Nodes(Plug(p, t))
    ensures t.right.Node? ==> t.right.id != ParentPtr(p) && t.right.id in Nodes(Plug(p, t))
    ensures p.In? ==> p.id in Nodes(Plug(p, t))
  {
    SpliceFacts(m, p, t, t.left);
    SpliceFacts(m, p, t, t.right);
    PlugLaid(m, p, t);
    NodesPlug(p, t);
    RootIn(t.left);
    RootIn(t.right);
    assert p.In? ==> p.id in PathNodes(p);
  }

  /** The cells touched when y takes the place of x exist and are distinct. */
  ghost predicate TransplantReady(m: Mem, x: Ptr, y: Ptr)
    requires x in m
  {
    var (l, r, q) := (m[x].left, m[x].right, m[x].parent);
    && x != y
    && (l != NULL ==> l in m && y != l && l != x && l != r && l != q)
    && (r != NULL ==> r in m && y != r && r != x && r != q)
    && (q != NULL ==> q in m && q != x && q != y)
  }

  ghost predicate Transplanted(m: Mem, m': Mem, x: Ptr, y: Ptr)
    requires x in m && TransplantReady(m, x, y)
  {
    var (l, r, q) := (m[x].left, m[x].right, m[x].parent);
    && m'.Keys == m.Keys + {y}
    && m'[y] == m[x]
    && (l != NULL ==> m'[l] == m[l].(parent := y))
    && (r != NULL ==> m'[r] == m[r].(parent := y))
    && (q != NULL ==> m'[q] == WithChild(if m[q].left == x then L else R, m[q], y))
    && forall z :: z in m && z != y && z != l && z != r && z != q ==> m'[z] == m[z]
  }

  lemma TransplantedReplaces(m: Mem, m': Mem, p: Path, t: Tree, y: Ptr)
    requires Laid(m, Plug(p, t), NULL) && t.Node? && NULL !in m && y != NULL
    requires y !in Nodes(Plug(p, t)) && t.id in m && TransplantReady(m, t.id, y)
    requires Transplanted(m, m', t.id, y) && LooksLike(m, p, t)
    requires HoldsRoot(m, t.left, t.id) && HoldsRoot(m, t.right, t.id)
    ensures Laid(m', Plug(p, t.(id := y)), NULL)
    ensures forall x :: x in m && x != y && x !in Nodes(Plug(p, t)) ==> m'[x] == m[x]
  {
    ReplaceFacts(m, p, t);
    assert ReplacedCells(m, m', p, t, y);
    ReplaceLaid(m, m', p, t, y);
  }

  /** On a left spine below base, the hole's parent is base's node only at the top of the spine. */
  lemma OldIsAbove(m: Mem, q: Path, base: Path, v: Tree)
    requires base.In? && v.Node? && Before(q) == [] && Laid(m, Plug(Append(q, base), v), NULL)
    ensures q.Top? <==> ParentPtr(Append(q, base)) == base.id
    ensures q.In? ==> q.side == L && Append(q, base).side == L && Append(q, base).id == q.id
  {
    PlugLaid(m, Append(q, base), v);
    if q.In? {
      AppendNodes(q.up, base);
    }
  }

  lemma {:induction false} AppendNodes(q: Path, base: Path)
    ensures PathNodes(Append(q, base)) == PathNodes(q) + PathNodes(base)
  {
    if q.In? {
      AppendNodes(q.up, base);
    }
  }

  /** The cells a rotation reads, and that they are different cells. */
  lemma RotateFacts(d: Side, m: Mem, p: Path, t: Tree)
    requires t.Node? && Child(Other(d), t).Node? && Laid(m, Plug(p, t), NULL)
    ensures
      var s := Child(Other(d), t);
      var b := Child(d, s);
      && t.id in m && s.id in m && t.id != s.id && t.id != NULL && s.id != NULL
      && m[t.id] == CellOf(d, Root(Child(d, t)), s.id, ParentPtr(p), t.color)
      && m[s.id] == CellOf(d, Root(b), Root(Child(Other(d), s)), t.id, s.color)
      && (b.Node? ==> b.id in m && b.id != t.id && b.id != s.id && b.id != ParentPtr(p) && b.id != NULL)
    ensures PathFacts(m, p, t)
    ensures p.In? ==> p.id != Child(Other(d), t).id
  {
    PathFactsHold(m, p, t);
    PlugLaid(m, p, t);
    var s := Child(Other(d), t);
    LaidKeys(m, Child(d, s), s.id);
    assert s.id in Nodes(t);
    assert Child(d, s).Node? ==> Root(Child(d, s)) in Nodes(s) && Root(Child(d, s)) in Nodes(t);
  }

  lemma RelinkedRotates(d: Side, m: Mem, m': Mem, p: Path, t: Tree)
    requires t.Node? && Child(Other(d), t).Node? && Laid(m, Plug(p, t), NULL)
    requires NULL !in m && t.id in m && RelinkReady(d, m, t.id) && Relinked(d, m, m', t.id)
    ensures Laid(m', Plug(p, Rotate(d, t)), NULL)
    ensures Within(m, m', Nodes(Plug(p, t)))
  {
    RotateFacts(d, m, p, t);
    var s := Child(Other(d), t);
    var b := Child(d, s);
    assert RotatedCells(d, m, m', p, t);
    RotateLaid(d, m, m', p, t);
    assert s.id in Nodes(t) && t.id in Nodes(t);
    assert b.Node? ==> b.id in Nodes(s) && b.id in Nodes(t);
  }

  ghost predicate PathFacts(m: Mem, p: Path, t: Tree)
    requires t.Node?
  {
    && (p.In? ==> p.id != NULL && p.id in m && p.id != t.id && p.id !in Nodes(t)
                    && m[p.id] == PathCell(p, t.id) && Root(p.sibling) != t.id)
    && Nodes(t) <= Nodes(Plug(p, t)) && (p.In? ==> p.id in Nodes(Plug(p, t)))
  }

  lemma PathFactsHold(m: Mem, p: Path, t: Tree)
    requires t.Node? && Laid(m, Plug(p, t), NULL)
    ensures PathFacts(m, p, t)
  {
    PlugLaid(m, p, t);
    NodesPlug(p, t);
    assert t.id in Nodes(t);
    assert p.In? ==> p.id in PathNodes(p) && (p.sibling.Node? ==> Root(p.sibling) in PathNodes(p));
  }

  lemma {:induction false} RootAbove(p: Path, t: Tree)
    requires p.In?
    ensures Plug(p, t).Node? && Plug(p, t).id in PathNodes(p) && Plug(p, t) != t
  {
    TreeSize(p, t);
    match p.up
    case Top =>
    case In(_, _, _, _, _) => RootAbove(p.up, Join(p.side, t, p.id, p.color, p.sibling));
  }

  lemma {:induction false} TreeSize(p: Path, t: Tree)
    ensures Size(Plug(p, t)) >= Size(t) + Depth(p)
  {
    if p.In? {
      TreeSize(p.up, Join(p.side, t, p.id, p.color, p.sibling));
    }
  }

  lemma RotateNodes(d: Side, p: Path, t: Tree)
    requires t.Node? && Child(Other(d), t).Node?
    ensures Nodes(Plug(p, Rotate(d, t))) == Nodes(Plug(p, t))
    ensures Inorder(Plug(p, Rotate(d, t))) == Inorder(Plug(p, t))
    ensures p.In? ==> Root(Plug(p, Rotate(d, t))) == Root(Plug(p, t))
  {
    RotateInorder(d, t);
    NodesPlug(p, t);
    NodesPlug(p, Rotate(d, t));
    InorderPlug(p, t);
    InorderPlug(p, Rotate(d, t));
    RootPlug(p, t, Rotate(d, t));
  }

  lemma RecolorLaid(m: Mem, m': Mem, p: Path, t: Tree, c: Color)
    requires t.Node? && Laid(m, Plug(p, t), NULL)
    requires t.id in m && m' == WithColor(m, t.id, c)
    ensures Laid(m', Plug(p, t.(color := c)), NULL)
  {
    PlugLaid(m, p, t);
    PlugLaid(m', p, t.(color := c));
    LaidKeys(m, t, ParentPtr(p));
    PathLaidKeys(m, p, t.id);
    LaidMoved(m, m', t.left, t.id, t.id);
    LaidMoved(m, m', t.right, t.id, t.id);
    assert p.In? ==> p.id in PathNodes(p);
    PathLaidMoved(m, m', p, t.id, t.id);
  }

  lemma SpliceNodes(p: Path, v: Tree)
    requires v.Node? && v.left.Leaf?
    ensures Nodes(Plug(p, v)) == Nodes(Plug(p, v.right)) + {v.id}
  {
    NodesPlug(p, v);
    NodesPlug(p, v.right);
  }

  // ----- linking a new leaf

  /** The address of a link field, struct rb_node **. */
  datatype Link = AtRoot | AtLeft(owner: Ptr) | AtRight(owner: Ptr)

  function LinkOf(p: Path): Link {
    if p.Top? then AtRoot else if p.side == L then AtLeft(p.id) else AtRight(p.id)
  }

  lemma HangLaid(m: Mem, m': Mem, p: Path, y: Ptr)
    requires Laid(m, Plug(p, Leaf), NULL) && y != NULL && y !in Nodes(Plug(p, Leaf))
    requires y in m' && m'[y] == Cell(NULL, NULL, ParentPtr(p), Red)
    requires p.In? ==> p.id in m' && m'[p.id] == PathCell(p, y)
    requires forall z :: z in m && z != y && z != ParentPtr(p) ==> Same(m, m', z)
    ensures Laid(m', Plug(p, Node(Leaf, y, Red, Leaf)), NULL)
  {
    PlugLaid(m, p, Leaf);
    PlugLaid(m', p, Node(Leaf, y, Red, Leaf));
    NodesPlug(p, Leaf);
    PathLaidKeys(m, p, NULL);
    PathLaidMoved(m, m', p, NULL, y);
  }

  lemma NewLeaf(p: Path, y: Ptr)
    requires RedBlack(Plug(p, Leaf))
    ensures RedFocus(p, Node(Leaf, y, Red, Leaf))
    ensures Inorder(Plug(p, Leaf)) == Before(p) + After(p)
    ensures Inorder(Plug(p, Node(Leaf, y, Red, Leaf))) == Before(p) + [y] + After(p)
    ensures Nodes(Plug(p, Node(Leaf, y, Red, Leaf))) == Nodes(Plug(p, Leaf)) + {y}
  {
    InorderPlug(p, Leaf);
    InorderPlug(p, Node(Leaf, y, Red, Leaf));
    NodesPlug(p, Leaf);
    NodesPlug(p, Node(Leaf, y, Red, Leaf));
    PlugNoRedRed(p, Leaf);
    BalancedAt(p, Leaf);
  }

  lemma ReplaceKeepsRedBlack(p: Path, t: Tree, y: Ptr)
    requires t.Node?
    ensures RedBlack(Plug(p, t)) ==> RedBlack(Plug(p, t.(id := y)))
  {
    if RedBlack(Plug(p, t)) {
      BalancedAt(p, t);
      PlugNoRedRed(p, t);
      PlugNoRedRed(p, t.(id := y));
      PlugBalanced(p, t.(id := y), BlackHeight(t));
    }
  }

  // ----- in-order neighbours

  /** The i-th element, or NULL outside the sequence. */
  function At(s: seq<Ptr>, i: int): Ptr {
    if 0 <= i < |s| then s[i] else NULL
  }

  lemma PredecessorLast(q: Path, v: Tree)
    requires After(q) == [] && v.Node? && v.right.Leaf?
    ensures Inorder(Plug(q, v)) == Inorder(Plug(q, v.left)) + [v.id]
  {
    InorderPlug(q, v);
    InorderPlug(q, v.left);
  }

  lemma LastOfPrefix(s: seq<Ptr>, a: seq<Ptr>, b: seq<Ptr>, x: Ptr)
    requires Distinct(s) && s == a + b && a != [] && a[|a| - 1] == x
    ensures forall i :: 0 <= i < |s| && s[i] == x ==> At(s, i + 1) == At(b, 0)
  {
    assert s[|a| - 1] == x;
  }

  lemma FirstOfSuffix(s: seq<Ptr>, a: seq<Ptr>, b: seq<Ptr>, x: Ptr)
    requires Distinct(s) && s == a + b && b != [] && b[0] == x
    ensures forall i :: 0 <= i < |s| && s[i] == x ==> At(s, i - 1) == At(a, |a| - 1)
  {
    assert s[|a|] == x;
  }

  lemma SuccessorAbove(p: Path, t: Tree, x: Ptr)
    requires Distinct(Inorder(Plug(p, t))) && t.Node?
    requires At(Before(p) + Inorder(t), |Before(p) + Inorder(t)| - 1) == x
    ensures
      var s := Inorder(Plug(p, t));
      forall i :: 0 <= i < |s| && s[i] == x ==> At(s, i + 1) == At(After(p), 0)
  {
    InorderPlug(p, t);
    LastOfPrefix(Inorder(Plug(p, t)), Before(p) + Inorder(t), After(p), x);
  }

  lemma PredecessorAbove(p: Path, t: Tree, x: Ptr)
    requires Distinct(Inorder(Plug(p, t))) && t.Node? && At(Inorder(t) + After(p), 0) == x
    ensures
      var s := Inorder(Plug(p, t));
      forall i :: 0 <= i < |s| && s[i] == x ==> At(s, i - 1) == At(Before(p), |Before(p)| - 1)
  {
    InorderPlug(p, t);
    FirstOfSuffix(Inorder(Plug(p, t)), Before(p), Inorder(t) + After(p), x);
  }

  lemma GatherLeft(p: Path, t: Tree)
    requires p.In? && p.side == R
    ensures Before(p.up) + Inorder(Join(R, t, p.id, p.color, p.sibling)) == Before(p) + Inorder(t)
  {
  }

  lemma GatherRight(p: Path, t: Tree)
    requires p.In? && p.side == L
    ensures Inorder(Join(L, t, p.id, p.color, p.sibling)) + After(p.up) == Inorder(t) + After(p)
  {
  }

  lemma OutermostAfter(p: Path)
    requires p.In? ==> p.side == L
    ensures At(After(p), 0) == ParentPtr(p)
  {
  }

  lemma OutermostBefore(p: Path)
    requires p.In? ==> p.side == R
    ensures At(Before(p), |Before(p)| - 1) == ParentPtr(p)
  {
  }

  /** The neighbours of an element that occurs once. */
  lemma Neighbours(s: seq<Ptr>, a: seq<Ptr>, x: Ptr, b: seq<Ptr>)
    requires Distinct(s) && s == a + [x] + b
    ensures forall i :: 0 <= i < |s| && s[i] == x ==> At(s, i + 1) == At(b, 0) && At(s, i - 1) == At(a, |a| - 1)
  {
    assert s[|a|] == x;
  }

  lemma NeighboursOfFocus(p: Path, t: Tree)
    requires Distinct(Inorder(Plug(p, t))) && t.Node?
    ensures
      var s := Inorder(Plug(p, t));
      forall i :: 0 <= i < |s| && s[i] == t.id ==>
        && At(s, i + 1) == At(Inorder(t.right) + After(p), 0)
        && At(s, i - 1) == At(Before(p) + Inorder(t.left), |Before(p) + Inorder(t.left)| - 1)
  {
    InorderPlug(p, t);
    Regroup(Before(p), Inorder(t.left), t.id, Inorder(t.right), After(p));
    var (s, a, b) := (Inorder(Plug(p, t)), Before(p) + Inorder(t.left), Inorder(t.right) + After(p));
    assert s == a + [t.id] + b;
    Neighbours(s, a, t.id, b);
  }

  lemma SuccessorBelow(p: Path, t: Tree, q: Path, v: Tree)
    requires Distinct(Inorder(Plug(p, t))) && t.Node? && t.right == Plug(q, v) && Before(q) == [] && v.Node?
      && v.left.Leaf?
    ensures forall i :: 0 <= i < |Inorder(Plug(p, t))| && Inorder(Plug(p, t))[i] == t.id ==>
      At(Inorder(Plug(p, t)), i + 1) == v.id
  {
    SuccessorFirst(q, v);
    NeighboursOfFocus(p, t);
  }

  lemma PredecessorBelow(p: Path, t: Tree, q: Path, v: Tree)
    requires Distinct(Inorder(Plug(p, t))) && t.Node? && t.left == Plug(q, v) && After(q) == [] && v.Node?
      && v.right.Leaf?
    ensures forall i :: 0 <= i < |Inorder(Plug(p, t))| && Inorder(Plug(p, t))[i] == t.id ==>
      At(Inorder(Plug(p, t)), i - 1) == v.id
  {
    PredecessorLast(q, v);
    NeighboursOfFocus(p, t);
  }
}
