/** Pure view of the red-black trees of rbtree.c: tree shapes, root-to-hole paths
    (zippers), the red-black invariants, and the relation between a shape and the
    linked cells that represent it in memory. */
module RbShape {
  import opened Powers
  import opened Sequences

  /** Address of a node; NULL is the C null pointer. */
  type Ptr = nat

  const NULL: Ptr := 0

  datatype Color = Red | Black

  /** struct rb_node. The packed word rb_parent_color is kept as two components;
      module RbWord relates the two views. */
  datatype Cell = Cell(left: Ptr, right: Ptr, parent: Ptr, color: Color)

  type Mem = map<Ptr, Cell>

  datatype Tree = Leaf | Node(left: Tree, id: Ptr, color: Color, right: Tree)

  datatype Side = L | R

  /** The way from a hole up to the root: on each level the side of the hole,
      the parent node and the sibling subtree. */
  datatype Path = Top | In(side: Side, id: Ptr, color: Color, sibling: Tree, up: Path)

  function Other(d: Side): Side {
    if d == L then R else L
  }

  /** The node x whose child on side d is t and whose other child is s. */
  function Join(d: Side, t: Tree, x: Ptr, c: Color, s: Tree): Tree {
    if d == L then Node(t, x, c, s) else Node(s, x, c, t)
  }

  function Child(d: Side, t: Tree): Tree
    requires t.Node?
  {
    if d == L then t.left else t.right
  }

  function Root(t: Tree): Ptr {
    if t.Leaf? then NULL else t.id
  }

  function ParentPtr(p: Path): Ptr {
    if p.Top? then NULL else p.id
  }

  function Plug(p: Path, t: Tree): Tree {
    match p
    case Top => t
    case In(d, x, c, s, up) => Plug(up, Join(d, t, x, c, s))
  }

  function Append(p: Path, q: Path): Path {
    match p
    case Top => q
    case In(d, x, c, s, up) => In(d, x, c, s, Append(up, q))
  }

  function Depth(p: Path): nat {
    if p.Top? then 0 else 1 + Depth(p.up)
  }

  function Nodes(t: Tree): set<Ptr> {
    match t
    case Leaf => {}
    case Node(l, x, _, r) => Nodes(l) + {x} + Nodes(r)
  }

  function PathNodes(p: Path): set<Ptr> {
    match p
    case Top => {}
    case In(_, x, _, s, up) => {x} + Nodes(s) + PathNodes(up)
  }

  // ----- in-order sequence

  function Inorder(t: Tree): seq<Ptr> {
    match t
    case Leaf => []
    case Node(l, x, _, r) => Inorder(l) + [x] + Inorder(r)
  }

  /** What precedes, and what follows, the hole of a path in the in-order sequence. */
  function Before(p: Path): seq<Ptr> {
    match p
    case Top => []
    case In(d, x, _, s, up) => if d == L then Before(up) else Before(up) + Inorder(s) + [x]
  }

  function After(p: Path): seq<Ptr> {
    match p
    case Top => []
    case In(d, x, _, s, up) => if d == R then After(up) else [x] + Inorder(s) + After(up)
  }

  lemma {:induction false} InorderPlug(p: Path, t: Tree)
    ensures Inorder(Plug(p, t)) == Before(p) + Inorder(t) + After(p)
  {
    match p
    case Top =>
    case In(d, x, c, s, up) => InorderPlug(up, Join(d, t, x, c, s));
  }

  lemma {:induction false} PlugAppend(p: Path, q: Path, t: Tree)
    ensures Plug(Append(p, q), t) == Plug(q, Plug(p, t))
  {
    match p
    case Top =>
    case In(d, x, c, s, up) => PlugAppend(up, q, Join(d, t, x, c, s));
  }

  lemma {:induction false} RootPlug(p: Path, t: Tree, t': Tree)
    ensures p.In? ==> Root(Plug(p, t)) == Root(Plug(p, t'))
  {
    if p.In? {
      RootPlug(p.up, Join(p.side, t, p.id, p.color, p.sibling), Join(p.side, t', p.id, p.color, p.sibling));
    }
  }

  lemma {:induction false} NodesPlug(p: Path, t: Tree)
    ensures Nodes(Plug(p, t)) == PathNodes(p) + Nodes(t)
  {
    if p.In? {
      NodesPlug(p.up, Join(p.side, t, p.id, p.color, p.sibling));
    }
  }

  lemma {:induction false} InorderNodes(t: Tree, x: Ptr)
    ensures x in Inorder(t) <==> x in Nodes(t)
  {
    if t.Node? {
      InorderNodes(t.left, x);
      InorderNodes(t.right, x);
    }
  }

  // ----- red-black invariants

  predicate IsBlack(t: Tree) {
    t.Leaf? || t.color.Black?
  }

  function Weight(c: Color): int {
    if c.Black? then 1 else 0
  }

  /** Every path from the root of t to a leaf meets exactly h black nodes. */
  predicate Balanced(t: Tree, h: int) {
    match t
    case Leaf => h == 0
    case Node(l, _, c, r) => Balanced(l, h - Weight(c)) && Balanced(r, h - Weight(c))
  }

  predicate NoRedRed(t: Tree) {
    match t
    case Leaf => true
    case Node(l, _, c, r) => NoRedRed(l) && NoRedRed(r) && (c.Red? ==> IsBlack(l) && IsBlack(r))
  }

  function BlackHeight(t: Tree): int {
    if t.Leaf? then 0 else BlackHeight(t.left) + Weight(t.color)
  }

  predicate RedBlack(t: Tree) {
    IsBlack(t) && NoRedRed(t) && Balanced(t, BlackHeight(t))
  }

  lemma {:induction false} BalancedHeight(t: Tree, h: int)
    requires Balanced(t, h)
    ensures h == BlackHeight(t) >= 0
  {
    if t.Node? {
      BalancedHeight(t.left, h - Weight(t.color));
    }
  }

  /** Putting a tree of black height h into the hole keeps all black heights equal. */
  predicate PathBalanced(p: Path, h: int) {
    match p
    case Top => true
    case In(_, _, c, s, up) => Balanced(s, h) && PathBalanced(up, h + Weight(c))
  }

  /** No two adjacent red nodes on or beside the path, and the root is black. */
  predicate PathNoRedRed(p: Path) {
    match p
    case Top => true
    case In(_, _, c, s, up) =>
      && NoRedRed(s) && PathNoRedRed(up)
      && (c.Red? ==> IsBlack(s) && up.In? && up.color.Black?)
  }

  lemma {:induction false} PlugBalanced(p: Path, t: Tree, h: int)
    requires Balanced(t, h)
    ensures Balanced(Plug(p, t), BlackHeight(Plug(p, t))) <==> PathBalanced(p, h)
  {
    match p
    case Top => BalancedHeight(t, h);
    case In(d, x, c, s, up) =>
      var u := Join(d, t, x, c, s);
      if Balanced(s, h) {
        PlugBalanced(up, u, h + Weight(c));
      } else {
        forall k ensures !Balanced(u, k) {
          if Balanced(u, k) {
            BalancedHeight(t, h);
            BalancedHeight(t, k - Weight(c));
          }
        }
        PlugUnbalanced(up, u);
      }
  }

  lemma {:induction false} PlugUnbalanced(p: Path, t: Tree)
    requires forall h :: !Balanced(t, h)
    ensures forall h :: !Balanced(Plug(p, t), h)
  {
    if p.In? {
      PlugUnbalanced(p.up, Join(p.side, t, p.id, p.color, p.sibling));
    }
  }

  /** The red-black invariants of a tree, read at any position in it. */
  lemma {:induction false} PlugNoRedRed(p: Path, t: Tree)
    ensures IsBlack(Plug(p, t)) && NoRedRed(Plug(p, t))
            <==> NoRedRed(t) && PathNoRedRed(p) && (!IsBlack(t) ==> p.In? && p.color.Black?)
  {
    if p.In? {
      PlugNoRedRed(p.up, Join(p.side, t, p.id, p.color, p.sibling));
    }
  }

  lemma {:induction false} AppendRecolourFree(p: Path, x: Ptr, y: Ptr, d: Side, c: Color, s: Tree, up: Path, h: int)
    ensures PathBalanced(Append(p, In(d, x, c, s, up)), h) == PathBalanced(Append(p, In(d, y, c, s, up)), h)
    ensures PathNoRedRed(Append(p, In(d, x, c, s, up))) == PathNoRedRed(Append(p, In(d, y, c, s, up)))
  {
    if p.In? {
      AppendRecolourFree(p.up, x, y, d, c, s, up, h + Weight(p.color));
    }
  }

  function Size(t: Tree): nat {
    if t.Leaf? then 0 else Size(t.left) + 1 + Size(t.right)
  }

  lemma {:induction false} BlackHeightSize(t: Tree, h: nat)
    requires Balanced(t, h)
    ensures Pow2(h) <= Size(t) + 1
  {
    if t.Node? {
      if t.color.Black? {
        BalancedHeight(t.left, h - 1);
        BlackHeightSize(t.left, h - 1);
        BlackHeightSize(t.right, h - 1);
      } else {
        BlackHeightSize(t.left, h);
      }
    }
  }

  lemma {:induction false} SizeInorder(t: Tree)
    ensures Size(t) == |Inorder(t)|
  {
    if t.Node? {
      SizeInorder(t.left);
      SizeInorder(t.right);
    }
  }

  // ----- memory layout

  /** Subtree t is linked in m under parent q, without sharing any node. */
  ghost predicate Laid(m: Mem, t: Tree, q: Ptr) {
    match t
    case Leaf => true
    case Node(l, x, c, r) =>
      && x != NULL && x in m && m[x] == Cell(Root(l), Root(r), q, c)
      && x !in Nodes(l) && x !in Nodes(r) && Nodes(l) !! Nodes(r)
      && Laid(m, l, x) && Laid(m, r, x)
  }

  /** The cell with child `near` on side d and child `far` on the other side. */
  function CellOf(d: Side, near: Ptr, far: Ptr, q: Ptr, c: Color): Cell {
    if d == L then Cell(near, far, q, c) else Cell(far, near, q, c)
  }

  /** The cell of a path's lowest node when pointer h hangs in the hole. */
  function PathCell(p: Path, h: Ptr): Cell
    requires p.In?
  {
    CellOf(p.side, h, Root(p.sibling), ParentPtr(p.up), p.color)
  }

  /** Path p is linked in m with pointer h in its hole. */
  ghost predicate PathLaid(m: Mem, p: Path, h: Ptr) {
    match p
    case Top => true
    case In(d, x, c, s, up) =>
      && x != NULL && x in m && m[x] == PathCell(p, h)
      && x !in Nodes(s) && x !in PathNodes(up) && Nodes(s) !! PathNodes(up)
      && Laid(m, s, x) && PathLaid(m, up, x)
  }

  lemma {:induction false} PlugLaid(m: Mem, p: Path, t: Tree)
    ensures Laid(m, Plug(p, t), NULL)
            <==> Laid(m, t, ParentPtr(p)) && PathLaid(m, p, Root(t)) && Nodes(t) !! PathNodes(p)
  {
    if p.In? {
      PlugLaid(m, p.up, Join(p.side, t, p.id, p.color, p.sibling));
    }
  }

  ghost predicate Same(m: Mem, m': Mem, x: Ptr) {
    x in m && x in m' && m'[x] == m[x]
  }

  /** Layout of t survives any change that keeps its cells, except that the
      parent link of its root may move from q to q'. */
  lemma {:induction false} LaidMoved(m: Mem, m': Mem, t: Tree, q: Ptr, q': Ptr)
    requires Laid(m, t, q)
    requires forall x :: x in Nodes(t) && x != Root(t) ==> Same(m, m', x)
    requires t.Node? ==> t.id in m' && m'[t.id] == m[t.id].(parent := q')
    ensures Laid(m', t, q')
  {
    if t.Node? {
      assert t.left.Node? ==> Same(m, m', t.left.id);
      assert t.right.Node? ==> Same(m, m', t.right.id);
      LaidMoved(m, m', t.left, t.id, t.id);
      LaidMoved(m, m', t.right, t.id, t.id);
    }
  }

  /** Layout of a path survives any change that keeps its cells, except that
      the pointer in the hole may change from h to h'. */
  lemma {:induction false} PathLaidMoved(m: Mem, m': Mem, p: Path, h: Ptr, h': Ptr)
    requires PathLaid(m, p, h)
    requires forall x :: x in PathNodes(p) && x != ParentPtr(p) ==> Same(m, m', x)
    requires p.In? ==> p.id in m' && m'[p.id] == PathCell(p, h')
    ensures PathLaid(m', p, h')
  {
    if p.In? {
      assert p.sibling.Node? ==> Same(m, m', p.sibling.id);
      assert p.up.In? ==> Same(m, m', p.up.id);
      LaidMoved(m, m', p.sibling, p.id, p.id);
      PathLaidMoved(m, m', p.up, p.id, p.id);
    }
  }

  // ----- rotations

  /** t rotated towards side d: its other child takes its place. */
  function Rotate(d: Side, t: Tree): Tree
    requires t.Node? && Child(Other(d), t).Node?
  {
    var s := Child(Other(d), t);
    Join(d, Join(d, Child(d, t), t.id, t.color, Child(d, s)), s.id, s.color, Child(Other(d), s))
  }

  lemma Reassociate(a: seq<Ptr>, x: Ptr, b: seq<Ptr>, y: Ptr, c: seq<Ptr>)
    ensures (a + [x] + b) + [y] + c == a + [x] + (b + [y] + c)
  {
  }

  lemma RotateInorder(d: Side, t: Tree)
    requires t.Node? && Child(Other(d), t).Node?
    ensures Inorder(Rotate(d, t)) == Inorder(t)
    ensures Nodes(Rotate(d, t)) == Nodes(t)
  {
    var s := Child(Other(d), t);
    if d == L {
      Reassociate(Inorder(t.left), t.id, Inorder(s.left), s.id, Inorder(s.right));
    } else {
      Reassociate(Inorder(s.left), s.id, Inorder(s.right), t.id, Inorder(t.right));
    }
  }

  /** Cells m' arise from m by relinking t's top two nodes, the subtree between
      them and the parent, as the rotations of rbtree.c do. */
  ghost predicate RotatedCells(d: Side, m: Mem, m': Mem, p: Path, t: Tree)
    requires t.Node? && Child(Other(d), t).Node?
  {
    var s := Child(Other(d), t);
    var (a, b, c) := (Child(d, t), Child(d, s), Child(Other(d), s));
    && t.id in m' && m'[t.id] == CellOf(d, Root(a), Root(b), s.id, t.color)
    && s.id in m' && m'[s.id] == CellOf(d, t.id, Root(c), ParentPtr(p), s.color)
    && (b.Node? ==> b.id in m && b.id in m' && m'[b.id] == m[b.id].(parent := t.id))
    && (p.In? ==> p.id in m' && m'[p.id] == PathCell(p, s.id))
    && m.Keys == m'.Keys
    && forall z :: z in m && z != t.id && z != s.id && z != Root(b) && z != ParentPtr(p) ==> Same(m, m', z)
  }

  lemma RotateLaid(d: Side, m: Mem, m': Mem, p: Path, t: Tree)
    requires t.Node? && Child(Other(d), t).Node?
    requires Laid(m, Plug(p, t), NULL) && RotatedCells(d, m, m', p, t)
    ensures Laid(m', Plug(p, Rotate(d, t)), NULL)
  {
    PlugLaid(m, p, t);
    PlugLaid(m', p, Rotate(d, t));
    RotateInorder(d, t);
    LaidKeys(m, t, ParentPtr(p));
    RotateSubtreeLaid(d, m, m', p, t);
    PathLaidKeys(m, p, t.id);
    PathLaidMoved(m, m', p, t.id, Root(Rotate(d, t)));
  }

  lemma RotateSubtreeLaid(d: Side, m: Mem, m': Mem, p: Path, t: Tree)
    requires t.Node? && Child(Other(d), t).Node?
    requires Laid(m, t, ParentPtr(p)) && ParentPtr(p) !in Nodes(t) && RotatedCells(d, m, m', p, t)
    ensures Laid(m', Rotate(d, t), ParentPtr(p))
  {
    var s := Child(Other(d), t);
    var (a, b, c) := (Child(d, t), Child(d, s), Child(Other(d), s));
    assert Laid(m', a, t.id) by { LaidKeys(m, a, t.id); LaidMoved(m, m', a, t.id, t.id); }
    assert Laid(m', b, t.id) by { LaidKeys(m, b, s.id); LaidMoved(m, m', b, s.id, t.id); }
    assert Laid(m', c, s.id) by { LaidKeys(m, c, s.id); LaidMoved(m, m', c, s.id, s.id); }
    assert Laid(m', Join(d, a, t.id, t.color, b), s.id);
  }

  lemma {:induction false} LaidKeys(m: Mem, t: Tree, q: Ptr)
    requires Laid(m, t, q)
    ensures Nodes(t) <= m.Keys && NULL !in Nodes(t)
  {
    if t.Node? {
      LaidKeys(m, t.left, t.id);
      LaidKeys(m, t.right, t.id);
    }
  }

  lemma {:induction false} PathLaidKeys(m: Mem, p: Path, h: Ptr)
    requires PathLaid(m, p, h)
    ensures PathNodes(p) <= m.Keys && NULL !in PathNodes(p)
  {
    if p.In? {
      LaidKeys(m, p.sibling, p.id);
      PathLaidKeys(m, p.up, p.id);
    }
  }

  // ----- splicing nodes out and in

  /** A node with at most one child replaced by a child u of it. */
  ghost predicate SplicedCells(m: Mem, m': Mem, p: Path, u: Tree) {
    && m.Keys == m'.Keys
    && (u.Node? ==> u.id in m && u.id in m' && m'[u.id] == m[u.id].(parent := ParentPtr(p)))
    && (p.In? ==> p.id in m' && m'[p.id] == PathCell(p, Root(u)))
    && forall z :: z in m && z != Root(u) && z != ParentPtr(p) ==> Same(m, m', z)
  }

  lemma SpliceLaid(m: Mem, m': Mem, p: Path, t: Tree, u: Tree)
    requires t.Node? && (u == t.left || u == t.right)
    requires Laid(m, Plug(p, t), NULL) && SplicedCells(m, m', p, u)
    ensures Laid(m', Plug(p, u), NULL) && t.id !in Nodes(Plug(p, u))
  {
    PlugLaid(m, p, t);
    PlugLaid(m', p, u);
    NodesPlug(p, u);
    LaidKeys(m, u, t.id);
    PathLaidKeys(m, p, t.id);
    assert p.In? ==> p.id in PathNodes(p);
    LaidMoved(m, m', u, t.id, ParentPtr(p));
    assert u.Node? ==> u.id in Nodes(u);
    PathLaidMoved(m, m', p, t.id, Root(u));
  }

  /** Node y takes the place of t's root. */
  ghost predicate ReplacedCells(m: Mem, m': Mem, p: Path, t: Tree, y: Ptr)
    requires t.Node?
  {
    && t.id in m && y in m' && m'[y] == m[t.id]
    && (t.left.Node? ==> t.left.id in m && t.left.id in m' && m'[t.left.id] == m[t.left.id].(parent := y))
    && (t.right.Node? ==> t.right.id in m && t.right.id in m' && m'[t.right.id] == m[t.right.id].(parent := y))
    && (p.In? ==> p.id in m' && m'[p.id] == PathCell(p, y))
    && forall z :: z in m && z != y && z != Root(t.left) && z != Root(t.right) && z != ParentPtr(p) ==> Same(m, m', z)
  }

  lemma ReplaceLaid(m: Mem, m': Mem, p: Path, t: Tree, y: Ptr)
    requires t.Node? && y != NULL && y !in Nodes(Plug(p, t))
    requires Laid(m, Plug(p, t), NULL) && ReplacedCells(m, m', p, t, y)
    ensures Laid(m', Plug(p, t.(id := y)), NULL)
  {
    PlugLaid(m, p, t);
    PlugLaid(m', p, t.(id := y));
    NodesPlug(p, t);
    ReplaceSubtreeLaid(m, m', p, t, y);
    PathLaidKeys(m, p, t.id);
    assert t.left.Node? ==> t.left.id in Nodes(t.left);
    assert t.right.Node? ==> t.right.id in Nodes(t.right);
    PathLaidMoved(m, m', p, t.id, y);
  }

  lemma ReplaceSubtreeLaid(m: Mem, m': Mem, p: Path, t: Tree, y: Ptr)
    requires t.Node? && y != NULL && y !in Nodes(t) && Nodes(t) !! PathNodes(p)
    requires Laid(m, t, ParentPtr(p)) && ReplacedCells(m, m', p, t, y)
    ensures Laid(m', t.(id := y), ParentPtr(p))
  {
    assert p.In? ==> p.id in PathNodes(p);
    assert Laid(m', t.left, y) by { LaidKeys(m, t.left, t.id); RootIn(t.right); LaidMoved(m, m', t.left, t.id, y); }
    assert Laid(m', t.right, y) by { LaidKeys(m, t.right, t.id); RootIn(t.left); LaidMoved(m, m', t.right, t.id, y); }
  }

  lemma RootIn(t: Tree)
    ensures t.Node? ==> t.id in Nodes(t)
  {
  }

  // ----- positions

  /** Some position of the tree holds node x. */
  lemma {:induction false} Locate(t: Tree, x: Ptr, p: Path) returns (q: Path, u: Tree)
    requires x in Nodes(t)
    ensures Plug(q, u) == Plug(p, t) && u.Node? && u.id == x
  {
    if t.id == x {
      q, u := p, t;
    } else if x in Nodes(t.left) {
      q, u := Locate(t.left, x, In(L, t.id, t.color, t.right, p));
    } else {
      q, u := Locate(t.right, x, In(R, t.id, t.color, t.left, p));
    }
  }

  lemma {:induction false} LaidDistinct(m: Mem, t: Tree, q: Ptr)
    requires Laid(m, t, q)
    ensures Distinct(Inorder(t))
  {
    if t.Node? {
      LaidDistinct(m, t.left, t.id);
      LaidDistinct(m, t.right, t.id);
      forall i, j | 0 <= i < j < |Inorder(t)|
        ensures Inorder(t)[i] != Inorder(t)[j]
      {
        InorderNodes(t.left, Inorder(t)[i]);
        InorderNodes(t.right, Inorder(t)[j]);
      }
    }
  }
}
