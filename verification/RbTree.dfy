/** The red-black tree operations of rbtree.c on an index-addressed node store. */
module RbTree {
  import opened RbShape
  import opened Sequences
  import opened RbRepair

  /** struct rb_root together with the memory that holds its nodes. */
  class RbRoot {
    var cells: Mem
    var root: Ptr
    ghost var shape: Tree

    constructor ()
      ensures Valid() && shape == Leaf && root == NULL && cells == map[]
    {
      cells, root, shape := map[], NULL, Leaf;
    }

    ghost predicate Valid()
      reads this
    {
      NULL !in cells && root == Root(shape) && Laid(cells, shape, NULL)
    }

    /** What the cells hold at and just above a position of the tree. */
    lemma View(p: Path, t: Tree)
      requires Valid() && shape == Plug(p, t)
      ensures Laid(cells, t, ParentPtr(p)) && PathLaid(cells, p, Root(t)) && Nodes(t) !! PathNodes(p)
      ensures Nodes(shape) == PathNodes(p) + Nodes(t) && Nodes(shape) <= cells.Keys
      ensures p.Top? <==> root == Root(t)
    {
      PlugLaid(cells, p, t);
      NodesPlug(p, t);
      LaidKeys(cells, shape, NULL);
      if p.In? {
        RootAbove(p, t);
      }
    }

    /** The cells read around a position: the focus, its parent and its sibling. */
    lemma Look(p: Path, t: Tree)
      requires Valid() && shape == Plug(p, t)
      ensures LooksLike(cells, p, t) && (p.Top? <==> root == Root(t))
    {
      View(p, t);
      assert t.Node? ==> t.id in Nodes(t);
      if p.In? {
        assert p.sibling.Node? ==> p.sibling.id in PathNodes(p);
      }
    }

    /** The cells of the two children of a position. */
    lemma LookBelow(p: Path, t: Tree)
      requires Valid() && shape == Plug(p, t) && t.Node?
      ensures HoldsRoot(cells, t.left, t.id) && HoldsRoot(cells, t.right, t.id)
    {
      View(p, t);
    }

    /** The pointer updates of __rb_rotate_left. */
    method RelinkLeft(node: Ptr)
      requires NULL !in cells && node in cells && RelinkReady(L, cells, node)
      modifies this`cells, this`root
      ensures Relinked(L, old(cells), cells, node)
      ensures root == if old(cells)[node].parent == NULL then old(cells)[node].right else old(root)
    {
      var right := cells[node].right;
      var parent := cells[node].parent;
      cells := WithRight(cells, node, cells[right].left);
      if cells[node].right != NULL {
        cells := WithParent(cells, cells[right].left, node);
      }
      cells := WithLeft(cells, right, node);
      cells := WithParent(cells, right, parent);
      if parent != NULL {
        if node == cells[parent].left {
          cells := WithLeft(cells, parent, right);
        } else {
          cells := WithRight(cells, parent, right);
        }
      } else {
        root := right;
      }
      cells := WithParent(cells, node, right);
    }

    method RotateLeft(node: Ptr, ghost p: Path, ghost t: Tree)
      requires Valid() && shape == Plug(p, t) && t.Node? && t.id == node && t.right.Node?
      modifies this
      ensures Valid() && shape == Plug(p, Rotate(L, t)) && SameNodes(shape, old(shape))
      ensures Within(old(cells), cells, Nodes(shape))
    {
      RotateFacts(L, cells, p, t);
      RelinkLeft(node);
      shape := Plug(p, Rotate(L, t));
      RelinkedRotates(L, old(cells), cells, p, t);
      RotateNodes(L, p, t);
    }

    /** The pointer updates of __rb_rotate_right. */
    method RelinkRight(node: Ptr)
      requires NULL !in cells && node in cells && RelinkReady(R, cells, node)
      modifies this`cells, this`root
      ensures Relinked(R, old(cells), cells, node)
      ensures root == if old(cells)[node].parent == NULL then old(cells)[node].left else old(root)
    {
      var left := cells[node].left;
      var parent := cells[node].parent;
      cells := WithLeft(cells, node, cells[left].right);
      if cells[node].left != NULL {
        cells := WithParent(cells, cells[left].right, node);
      }
      cells := WithRight(cells, left, node);
      cells := WithParent(cells, left, parent);
      if parent != NULL {
        if node == cells[parent].right {
          cells := WithRight(cells, parent, left);
        } else {
          cells := WithLeft(cells, parent, left);
        }
      } else {
        root := left;
      }
      cells := WithParent(cells, node, left);
    }

    method RotateRight(node: Ptr, ghost p: Path, ghost t: Tree)
      requires Valid() && shape == Plug(p, t) && t.Node? && t.id == node && t.left.Node?
      modifies this
      ensures Valid() && shape == Plug(p, Rotate(R, t)) && SameNodes(shape, old(shape))
      ensures Within(old(cells), cells, Nodes(shape))
    {
      RotateFacts(R, cells, p, t);
      RelinkRight(node);
      shape := Plug(p, Rotate(R, t));
      RelinkedRotates(R, old(cells), cells, p, t);
      RotateNodes(R, p, t);
    }

    method SetColor(node: Ptr, c: Color, ghost p: Path, ghost t: Tree)
      requires Valid() && shape == Plug(p, t) && t.Node? && t.id == node
      modifies this
      ensures Valid() && shape == Plug(p, t.(color := c)) && root == old(root) && SameNodes(shape, old(shape))
      ensures Within(old(cells), cells, Nodes(shape))
    {
      View(p, t);
      cells := WithColor(cells, node, c);
      shape := Plug(p, t.(color := c));
      RecolorLaid(old(cells), cells, p, t, c);
      NodesPlug(p, t.(color := c));
      InorderPlug(p, t);
      InorderPlug(p, t.(color := c));
      RootPlug(p, t, t.(color := c));
    }

    /** The three colour changes of rb_insert_color when the uncle is red. */
    method BlackenUncle(uncle: Ptr, parent: Ptr, gparent: Ptr, ghost p: Path, ghost t: Tree)
      requires Valid() && shape == Plug(p, t) && p.In? && p.up.In? && RedParent(p.up.side, p, t)
      requires !IsBlack(p.up.sibling) && uncle == p.up.sibling.id && parent == p.id && gparent == p.up.id
      modifies this
      ensures Valid() && shape == Plug(p.up.up, FlipColors(p, t))
      ensures SameNodes(shape, old(shape)) && Within(old(cells), cells, Nodes(shape))
    {
      ghost var (d, e, up, s, u) := (p.up.side, p.side, p.up.up, p.sibling, p.up.sibling);
      RedParentHasParent(p, t);
      SetColor(uncle, Black, In(Other(d), gparent, Black, Join(e, t, parent, Red, s), up), u);
      SetColor(parent, Black, In(d, gparent, Black, u.(color := Black), up), Join(e, t, parent, Red, s));
      SetColor(gparent, Red, up, Join(d, Join(e, t, parent, Black, s), gparent, Black, u.(color := Black)));
    }

    /** The rotations of rb_insert_color when the parent is a left child. */
    method RaiseLeft(n: Ptr, par: Ptr, gparent: Ptr, ghost p0: Path, ghost t0: Tree)
      returns (node: Ptr, ghost p: Path, ghost t: Tree)
      requires Valid() && shape == Plug(p0, t0) && RedParent(L, p0, t0) && IsBlack(p0.up.sibling)
      requires n == t0.id && par == p0.id && gparent == p0.up.id
      modifies this
      ensures Valid() && shape == Plug(p, t) && RedFocus(p, t) && t.id == node && p.In? && p.color.Black?
        && Depth(p) < Depth(p0)
      ensures SameNodes(shape, old(shape)) && Within(old(cells), cells, Nodes(shape))
    {
      p, t := p0, t0;
      var parent := par;
      node := n;
      ghost var (up, u) := (p.up.up, p.up.sibling);
      View(p, t);
      if cells[parent].right == node {
        InnerRotated(L, p, t);
        RotateLeft(parent, p.up, Join(R, t, parent, Red, p.sibling));
        p, t := In(L, node, Red, t.right, p.up), Join(L, p.sibling, parent, Red, t.left);
        parent, node := node, parent;
      }
      OuterRotated(L, p, t);
      SetColor(parent, Black, p.up, Join(L, t, parent, Red, p.sibling));
      SetColor(gparent, Red, up, Join(L, Join(L, t, parent, Black, p.sibling), gparent, Black, u));
      RotateRight(gparent, up, Join(L, Join(L, t, parent, Black, p.sibling), gparent, Red, u));
      p := In(L, parent, Black, Join(L, p.sibling, gparent, Red, u), up);
    }

    /** The rotations of rb_insert_color when the parent is a right child. */
    method RaiseRight(n: Ptr, par: Ptr, gparent: Ptr, ghost p0: Path, ghost t0: Tree)
      returns (node: Ptr, ghost p: Path, ghost t: Tree)
      requires Valid() && shape == Plug(p0, t0) && RedParent(R, p0, t0) && IsBlack(p0.up.sibling)
      requires n == t0.id && par == p0.id && gparent == p0.up.id
      modifies this
      ensures Valid() && shape == Plug(p, t) && RedFocus(p, t) && t.id == node && p.In? && p.color.Black?
        && Depth(p) < Depth(p0)
      ensures SameNodes(shape, old(shape)) && Within(old(cells), cells, Nodes(shape))
    {
      p, t := p0, t0;
      var parent := par;
      node := n;
      ghost var (up, u) := (p.up.up, p.up.sibling);
      View(p, t);
      if cells[parent].left == node {
        InnerRotated(R, p, t);
        RotateRight(parent, p.up, Join(L, t, parent, Red, p.sibling));
        p, t := In(R, node, Red, t.left, p.up), Join(R, p.sibling, parent, Red, t.right);
        parent, node := node, parent;
      }
      OuterRotated(R, p, t);
      SetColor(parent, Black, p.up, Join(R, t, parent, Red, p.sibling));
      SetColor(gparent, Red, up, Join(R, Join(R, t, parent, Black, p.sibling), gparent, Black, u));
      RotateLeft(gparent, up, Join(R, Join(R, t, parent, Black, p.sibling), gparent, Red, u));
      p := In(R, parent, Black, Join(R, p.sibling, gparent, Red, u), up);
    }

    /** rb_insert_color: newNode is a red node just linked as a leaf. */
    method InsertColor(newNode: Ptr, ghost path: Path, ghost sub: Tree)
      requires Valid() && shape == Plug(path, sub) && RedFocus(path, sub) && sub.id == newNode
      modifies this
      ensures Valid() && RedBlack(shape) && SameNodes(shape, old(shape))
      ensures Within(old(cells), cells, Nodes(shape))
    {
      var node := newNode;
      ghost var p, t := path, sub;
      Look(p, t);
      var parent := cells[node].parent;
      while parent != NULL && cells[parent].color.Red?
        invariant Valid() && shape == Plug(p, t) && RedFocus(p, t) && t.id == node
        invariant parent == ParentPtr(p)
          && (p.In? ==> parent != NULL && parent in cells && cells[parent].color == p.color)
        invariant SameNodes(shape, old(shape)) && Within(old(cells), cells, Nodes(shape))
        decreases Depth(p)
      {
        RedParentHasParent(p, t);
        Look(p.up, Join(p.side, t, p.id, p.color, p.sibling));
        var gparent := cells[parent].parent;
        if parent == cells[gparent].left {
          assert p.up.side == L;
          var uncle := cells[gparent].right;
          if uncle != NULL && cells[uncle].color.Red? {
            FlipColorsKeeps(p, t);
            BlackenUncle(uncle, parent, gparent, p, t);
            t, p := FlipColors(p, t), p.up.up;
            node := gparent;
          } else {
            node, p, t := RaiseLeft(node, parent, gparent, p, t);
          }
        } else {
          assert p.up.side == R;
          var uncle := cells[gparent].left;
          if uncle != NULL && cells[uncle].color.Red? {
            FlipColorsKeeps(p, t);
            BlackenUncle(uncle, parent, gparent, p, t);
            t, p := FlipColors(p, t), p.up.up;
            node := gparent;
          } else {
            node, p, t := RaiseRight(node, parent, gparent, p, t);
          }
        }
        Look(p, t);
        parent := cells[node].parent;
      }
      FocusDone(p, t);
      SetColor(root, Black, Top, shape);
    }

    /** __rb_erase_color, red sibling of a left child: rotate so that the sibling is black. */
    method LowerLeft(sibling: Ptr, parent: Ptr, ghost p: Path, ghost t: Tree) returns (other: Ptr, ghost p': Path)
      requires Valid() && shape == Plug(p, t) && Short(p, t) && p.In? && p.side == L && !IsBlack(p.sibling)
      requires sibling == p.sibling.id && parent == p.id
      modifies this
      ensures Valid() && p' == Lowered(p) && shape == Plug(p', t) && Short(p', t)
      ensures p'.sibling.Node? && other == p'.sibling.id
      ensures SameNodes(shape, old(shape)) && Within(old(cells), cells, Nodes(shape))
    {
      ghost var (up, s) := (p.up, p.sibling);
      RedSibling(p, t);
      p' := Lowered(p);
      SetColor(sibling, Black, In(R, parent, Black, t, up), s);
      SetColor(parent, Red, up, Join(L, t, parent, Black, s.(color := Black)));
      RotateLeft(parent, up, Join(L, t, parent, Red, s.(color := Black)));
      Look(p', t);
      other := cells[parent].right;
    }

    /** __rb_erase_color, red near nephew of a left child: rotate so that the far nephew is red. */
    method StraightenLeft(sibling: Ptr, parent: Ptr, ghost p: Path, ghost t: Tree) returns (other: Ptr, ghost p': Path)
      requires Valid() && shape == Plug(p, t) && Short(p, t) && p.In? && p.side == L && p.sibling.Node?
        && p.sibling.color.Black?
      requires !IsBlack(p.sibling.left) && IsBlack(p.sibling.right) && sibling == p.sibling.id && parent == p.id
      modifies this
      ensures Valid() && p' == p.(sibling := Straightened(L, p.sibling)) && shape == Plug(p', t) && Short(p', t)
      ensures other == p'.sibling.id
      ensures SameNodes(shape, old(shape)) && Within(old(cells), cells, Nodes(shape))
    {
      ghost var (near, far, q) := (p.sibling.left, p.sibling.right, In(R, parent, p.color, t, p.up));
      Look(q, p.sibling);
      NearNephew(p, t);
      SetColor(cells[sibling].left, Black, In(L, sibling, Black, far, q), near);
      SetColor(sibling, Red, q, Join(L, near.(color := Black), sibling, Black, far));
      RotateRight(sibling, q, Join(L, near.(color := Black), sibling, Red, far));
      p' := p.(sibling := Straightened(L, p.sibling));
      Look(p', t);
      other := cells[parent].right;
    }

    /** __rb_erase_color, a red nephew of a left child: rotations that finish the repair. */
    method BorrowLeft(sibling: Ptr, parent: Ptr, ghost p0: Path, ghost t: Tree)
      requires Valid() && shape == Plug(p0, t) && Short(p0, t) && IsBlack(t) && p0.In? && p0.side == L
      requires p0.sibling.Node? && p0.sibling.color.Black? && !(IsBlack(p0.sibling.left) && IsBlack(p0.sibling.right))
      requires sibling == p0.sibling.id && parent == p0.id
      modifies this
      ensures Valid() && RedBlack(shape)
      ensures SameNodes(shape, old(shape)) && Within(old(cells), cells, Nodes(shape))
    {
      var other := sibling;
      ghost var p, up := p0, p0.up;
      Look(In(R, parent, p.color, t, up), p.sibling);
      LookBelow(In(R, parent, p.color, t, up), p.sibling);
      if cells[other].right == NULL || cells[cells[other].right].color.Black? {
        other, p := StraightenLeft(other, parent, p, t);
      }
      FarNephew(p, t);
      ghost var (near, far, c) := (p.sibling.left, p.sibling.right, p.color);
      Look(p, t);
      SetColor(other, cells[parent].color, In(R, parent, c, t, up), p.sibling);
      SetColor(parent, Black, up, Join(L, t, parent, c, Join(L, near, other, c, far)));
      Look(In(R, parent, Black, t, up), Join(L, near, other, c, far));
      SetColor(cells[other].right, Black, In(R, other, c, near, In(R, parent, Black, t, up)), far);
      RotateLeft(parent, up, Join(L, t, parent, Black, Join(L, near, other, c, far.(color := Black))));
    }

    /** __rb_erase_color, red sibling of a right child: rotate so that the sibling is black. */
    method LowerRight(sibling: Ptr, parent: Ptr, ghost p: Path, ghost t: Tree) returns (other: Ptr, ghost p': Path)
      requires Valid() && shape == Plug(p, t) && Short(p, t) && p.In? && p.side == R && !IsBlack(p.sibling)
      requires sibling == p.sibling.id && parent == p.id
      modifies this
      ensures Valid() && p' == Lowered(p) && shape == Plug(p', t) && Short(p', t)
      ensures p'.sibling.Node? && other == p'.sibling.id
      ensures SameNodes(shape, old(shape)) && Within(old(cells), cells, Nodes(shape))
    {
      ghost var (up, s) := (p.up, p.sibling);
      RedSibling(p, t);
      p' := Lowered(p);
      SetColor(sibling, Black, In(L, parent, Black, t, up), s);
      SetColor(parent, Red, up, Join(R, t, parent, Black, s.(color := Black)));
      RotateRight(parent, up, Join(R, t, parent, Red, s.(color := Black)));
      Look(p', t);
      other := cells[parent].left;
    }

    /** __rb_erase_color, red near nephew of a right child: rotate so that the far nephew is red. */
    method StraightenRight(sibling: Ptr, parent: Ptr, ghost p: Path, ghost t: Tree) returns (other: Ptr, ghost p': Path)
      requires Valid() && shape == Plug(p, t) && Short(p, t) && p.In? && p.side == R && p.sibling.Node?
        && p.sibling.color.Black?
      requires !IsBlack(p.sibling.right) && IsBlack(p.sibling.left) && sibling == p.sibling.id && parent == p.id
      modifies this
      ensures Valid() && p' == p.(sibling := Straightened(R, p.sibling)) && shape == Plug(p', t) && Short(p', t)
      ensures other == p'.sibling.id
      ensures SameNodes(shape, old(shape)) && Within(old(cells), cells, Nodes(shape))
    {
      ghost var (near, far, q) := (p.sibling.right, p.sibling.left, In(L, parent, p.color, t, p.up));
      Look(q, p.sibling);
      NearNephew(p, t);
      SetColor(cells[sibling].right, Black, In(R, sibling, Black, far, q), near);
      SetColor(sibling, Red, q, Join(R, near.(color := Black), sibling, Black, far));
      RotateLeft(sibling, q, Join(R, near.(color := Black), sibling, Red, far));
      p' := p.(sibling := Straightened(R, p.sibling));
      Look(p', t);
      other := cells[parent].left;
    }

    /** __rb_erase_color, a red nephew of a right child: rotations that finish the repair. */
    method BorrowRight(sibling: Ptr, parent: Ptr, ghost p0: Path, ghost t: Tree)
      requires Valid() && shape == Plug(p0, t) && Short(p0, t) && IsBlack(t) && p0.In? && p0.side == R
      requires p0.sibling.Node? && p0.sibling.color.Black? && !(IsBlack(p0.sibling.left) && IsBlack(p0.sibling.right))
      requires sibling == p0.sibling.id && parent == p0.id
      modifies this
      ensures Valid() && RedBlack(shape)
      ensures SameNodes(shape, old(shape)) && Within(old(cells), cells, Nodes(shape))
    {
      var other := sibling;
      ghost var p, up := p0, p0.up;
      Look(In(L, parent, p.color, t, up), p.sibling);
      LookBelow(In(L, parent, p.color, t, up), p.sibling);
      if cells[other].left == NULL || cells[cells[other].left].color.Black? {
        other, p := StraightenRight(other, parent, p, t);
      }
      FarNephew(p, t);
      ghost var (near, far, c) := (p.sibling.right, p.sibling.left, p.color);
      Look(p, t);
      SetColor(other, cells[parent].color, In(L, parent, c, t, up), p.sibling);
      SetColor(parent, Black, up, Join(R, t, parent, c, Join(R, near, other, c, far)));
      Look(In(L, parent, Black, t, up), Join(R, near, other, c, far));
      SetColor(cells[other].left, Black, In(L, other, c, near, In(L, parent, Black, t, up)), far);
      RotateRight(parent, up, Join(R, t, parent, Black, Join(R, near, other, c, far.(color := Black))));
    }

    /** One round of __rb_erase_color's loop at a left child. */
    method RepairLeft(startNode: Ptr, startParent: Ptr, ghost p0: Path, ghost t0: Tree)
      returns (node: Ptr, parent: Ptr, ghost p: Path, ghost t: Tree)
      requires Valid() && shape == Plug(p0, t0) && Short(p0, t0) && IsBlack(t0) && p0.In? && p0.side == L
      requires startNode == Root(t0) && startParent == p0.id
      modifies this
      ensures Valid() && shape == Plug(p, t) && Short(p, t) && node == Root(t) && parent == ParentPtr(p)
      ensures Rank(p, t) < Rank(p0, t0)
      ensures SameNodes(shape, old(shape)) && Within(old(cells), cells, Nodes(shape))
    {
      p, t, node, parent := p0, t0, startNode, startParent;
      SiblingExists(p, t);
      Look(p, t);
      var other := cells[parent].right;
      if cells[other].color.Red? {
        other, p := LowerLeft(other, parent, p, t);
      }
      Look(In(R, parent, p.color, t, p.up), p.sibling);
      LookBelow(In(R, parent, p.color, t, p.up), p.sibling);
      if (cells[other].left == NULL || cells[cells[other].left].color.Black?)
        && (cells[other].right == NULL || cells[cells[other].right].color.Black?) {
        BlackNephews(p, t);
        SetColor(other, Red, In(R, parent, p.color, t, p.up), p.sibling);
        p, t := p.up, Join(L, t, parent, p.color, p.sibling.(color := Red));
        node := parent;
        Look(p, t);
        parent := cells[node].parent;
      } else {
        BorrowLeft(other, parent, p, t);
        p, t := Top, shape;
        node, parent := root, NULL;
      }
    }

    /** One round of __rb_erase_color's loop at a right child. */
    method RepairRight(startNode: Ptr, startParent: Ptr, ghost p0: Path, ghost t0: Tree)
      returns (node: Ptr, parent: Ptr, ghost p: Path, ghost t: Tree)
      requires Valid() && shape == Plug(p0, t0) && Short(p0, t0) && IsBlack(t0) && p0.In? && p0.side == R
      requires startNode == Root(t0) && startParent == p0.id
      modifies this
      ensures Valid() && shape == Plug(p, t) && Short(p, t) && node == Root(t) && parent == ParentPtr(p)
      ensures Rank(p, t) < Rank(p0, t0)
      ensures SameNodes(shape, old(shape)) && Within(old(cells), cells, Nodes(shape))
    {
      p, t, node, parent := p0, t0, startNode, startParent;
      SiblingExists(p, t);
      Look(p, t);
      var other := cells[parent].left;
      if cells[other].color.Red? {
        other, p := LowerRight(other, parent, p, t);
      }
      Look(In(L, parent, p.color, t, p.up), p.sibling);
      LookBelow(In(L, parent, p.color, t, p.up), p.sibling);
      if (cells[other].left == NULL || cells[cells[other].left].color.Black?)
        && (cells[other].right == NULL || cells[cells[other].right].color.Black?) {
        BlackNephews(p, t);
        SetColor(other, Red, In(L, parent, p.color, t, p.up), p.sibling);
        p, t := p.up, Join(R, t, parent, p.color, p.sibling.(color := Red));
        node := parent;
        Look(p, t);
        parent := cells[node].parent;
      } else {
        BorrowRight(other, parent, p, t);
        p, t := Top, shape;
        node, parent := root, NULL;
      }
    }

    /** __rb_erase_color: the subtree at startNode is one black node short. */
    method EraseColor(startNode: Ptr, startParent: Ptr, ghost path: Path, ghost sub: Tree)
      requires Valid() && shape == Plug(path, sub) && Short(path, sub)
      requires startNode == Root(sub) && startParent == ParentPtr(path)
      modifies this
      ensures Valid() && RedBlack(shape) && SameNodes(shape, old(shape))
      ensures Within(old(cells), cells, Nodes(shape))
    {
      var node, parent := startNode, startParent;
      ghost var p, t := path, sub;
      Look(p, t);
      while (node == NULL || cells[node].color.Black?) && node != root
        invariant Valid() && shape == Plug(p, t) && Short(p, t)
        invariant node == Root(t) && parent == ParentPtr(p) && LooksLike(cells, p, t) && (p.Top? <==> root == node)
        invariant SameNodes(shape, old(shape)) && Within(old(cells), cells, Nodes(shape))
        decreases Rank(p, t)
      {
        SiblingExists(p, t);
        if cells[parent].left == node {
          node, parent, p, t := RepairLeft(node, parent, p, t);
        } else {
          node, parent, p, t := RepairRight(node, parent, p, t);
        }
        Look(p, t);
      }
      ShortDone(p, t);
      if node != NULL {
        SetColor(node, Black, p, t);
      }
    }

    /** rb_erase, first half: child u takes the place of node, which has no other child. */
    method Unlink(node: Ptr, child: Ptr, ghost p: Path, ghost t: Tree, ghost u: Tree)
      returns (parent: Ptr, color: Color)
      requires Valid() && shape == Plug(p, t) && t.Node? && t.id == node
      requires (u == t.left || u == t.right) && child == Root(u)
      modifies this
      ensures Valid() && shape == Plug(p, u) && parent == ParentPtr(p) && color == t.color
      ensures Within(old(cells), cells, old(Nodes(shape)))
    {
      Look(p, t);
      LookBelow(p, t);
      SpliceFacts(cells, p, t, u);
      parent := cells[node].parent;
      color := cells[node].color;
      if child != NULL {
        cells := WithParent(cells, child, parent);
      }
      if parent != NULL {
        if cells[parent].left == node {
          cells := WithLeft(cells, parent, child);
        } else {
          cells := WithRight(cells, parent, child);
        }
      } else {
        root := child;
      }
      shape := Plug(p, u);
      SpliceLaid(old(cells), cells, p, t, u);
      RootPlug(p, t, u);
    }

    /** The loop of rb_erase that looks for the leftmost node of the right subtree. */
    method Leftmost(start: Ptr, ghost base: Path, ghost r: Tree) returns (node: Ptr, ghost q: Path, ghost v: Tree)
      requires Valid() && shape == Plug(base, r) && r.Node? && start == r.id
      ensures Plug(q, v) == r && Before(q) == [] && v.Node? && v.id == node && v.left.Leaf?
    {
      node := start;
      q, v := Top, r;
      PlugAppend(q, base, v);
      Look(Append(q, base), v);
      while cells[node].left != NULL
        invariant Plug(q, v) == r && Before(q) == [] && v.Node? && v.id == node
        invariant HoldsRoot(cells, v, ParentPtr(Append(q, base)))
        decreases v
      {
        node := cells[node].left;
        q, v := In(L, v.id, v.color, v.right, q), v.left;
        PlugAppend(q, base, v);
        Look(Append(q, base), v);
      }
      PlugAppend(q, base, v);
      LookBelow(Append(q, base), v);
    }

    /** rb_erase, two children: the successor node is taken out of the right subtree. */
    method DetachSuccessor(node: Ptr, old_: Ptr, ghost p: Path, ghost t: Tree, ghost q: Path, ghost v: Tree)
      returns (child: Ptr, parent: Ptr, color: Color)
      requires Valid() && shape == Plug(p, t) && t.Node? && t.id == old_
      requires t.right == Plug(q, v) && Before(q) == [] && v.Node? && v.id == node && v.left.Leaf?
      modifies this
      ensures Valid() && shape == Plug(p, t.(right := Plug(q, v.right)))
      ensures child == Root(v.right) && color == v.color && parent == (if q.Top? then node else q.id)
      ensures node !in Nodes(shape) && node in cells && old(Nodes(shape)) == Nodes(shape) + {node}
      ensures Within(old(cells), cells, old(Nodes(shape)))
    {
      ghost var base := In(R, t.id, t.color, t.left, p);
      ghost var full := Append(q, base);
      PlugAppend(q, base, v);
      PlugAppend(q, base, v.right);
      Look(full, v);
      LookBelow(full, v);
      SpliceFacts(cells, full, v, v.right);
      OldIsAbove(cells, q, base, v);
      child := cells[node].right;
      parent := cells[node].parent;
      color := cells[node].color;
      if child != NULL {
        cells := WithParent(cells, child, parent);
      }
      if parent == old_ {
        cells := WithRight(cells, parent, child);
        parent := node;
      } else {
        cells := WithLeft(cells, parent, child);
      }
      shape := Plug(full, v.right);
      SpliceLaid(old(cells), cells, full, v, v.right);
      RootPlug(full, v, v.right);
      SpliceNodes(full, v);
    }

    /** rb_erase, two children: the pointer updates that give node the place of old_. */
    method CopyLinks(node: Ptr, old_: Ptr)
      requires NULL !in cells && node != NULL && old_ in cells && TransplantReady(cells, old_, node)
        && cells[old_].left != NULL
      modifies this`cells, this`root
      ensures Transplanted(old(cells), cells, old_, node)
      ensures root == if old(cells)[old_].parent == NULL then node else old(root)
    {
      cells := cells[node := Cell(cells[old_].left, cells[old_].right, cells[old_].parent, cells[old_].color)];
      if cells[old_].parent != NULL {
        if cells[cells[old_].parent].left == old_ {
          cells := WithLeft(cells, cells[old_].parent, node);
        } else {
          cells := WithRight(cells, cells[old_].parent, node);
        }
      } else {
        root := node;
      }
      cells := WithParent(cells, cells[old_].left, node);
      if cells[old_].right != NULL {
        cells := WithParent(cells, cells[old_].right, node);
      }
    }

    /** rb_erase, two children: node gets the links and the colour of old_. */
    method TakePlace(node: Ptr, old_: Ptr, ghost p: Path, ghost t: Tree)
      requires Valid() && shape == Plug(p, t) && t.Node? && t.id == old_ && t.left.Node?
      requires node !in Nodes(shape) && node in cells
      modifies this
      ensures Valid() && shape == Plug(p, t.(id := node))
      ensures Within(old(cells), cells, old(Nodes(shape)) + {node})
    {
      Look(p, t);
      LookBelow(p, t);
      ReplaceFacts(cells, p, t);
      CopyLinks(node, old_);
      shape := Plug(p, t.(id := node));
      TransplantedReplaces(old(cells), cells, p, t, node);
      RootPlug(p, t, t.(id := node));
    }

    /** rb_erase, two children: the in-order successor replaces node. */
    method ReplaceBySuccessor(node: Ptr, ghost p: Path, ghost t: Tree)
      returns (child: Ptr, parent: Ptr, color: Color, ghost q: Path, ghost u: Tree)
      requires Valid() && RedBlack(shape) && shape == Plug(p, t) && t.Node? && t.id == node && t.left.Node?
        && t.right.Node?
      modifies this
      ensures Valid() && shape == Plug(q, u) && child == Root(u) && parent == ParentPtr(q)
      ensures if color.Red? then RedBlack(shape) else Short(q, u)
      ensures Inorder(shape) == Without(old(Inorder(shape)), node)
      ensures Within(old(cells), cells, old(Nodes(shape)))
    {
      ghost var pi, v;
      var succ;
      Look(p, t);
      succ, pi, v := Leftmost(cells[node].right, In(R, node, t.color, t.left, p), t.right);
      RemoveSuccessor(p, t, pi, v);
      RemoveSuccessorInorder(cells, p, t, pi, v);
      child, parent, color := DetachSuccessor(succ, node, p, t, pi, v);
      TakePlace(succ, node, p, t.(right := Plug(pi, v.right)));
      u := v.right;
      q := Append(pi, In(R, succ, t.color, t.left, p));
    }

    /** rb_erase */
    method Erase(node: Ptr)
      requires Valid() && RedBlack(shape) && node in Nodes(shape)
      modifies this
      ensures Valid() && RedBlack(shape)
      ensures Inorder(shape) == Without(old(Inorder(shape)), node)
      ensures Nodes(shape) == old(Nodes(shape)) - {node}
      ensures Within(old(cells), cells, old(Nodes(shape)))
    {
      ghost var p, t := Locate(shape, node, Top);
      Look(p, t);
      LookBelow(p, t);
      ghost var q, u;
      var child, parent, color;
      if cells[node].left == NULL || cells[node].right == NULL {
        if cells[node].left == NULL {
          child := cells[node].right;
          u := t.right;
        } else {
          child := cells[node].left;
          u := t.left;
        }
        RemoveOne(p, t, u);
        RemoveOneInorder(cells, p, t, u);
        q := p;
        parent, color := Unlink(node, child, p, t, u);
      } else {
        child, parent, color, q, u := ReplaceBySuccessor(node, p, t);
      }
      NodesWithout(old(shape), shape, node);
      if color == Black {
        EraseColor(child, parent, q, u);
      }
    }

    /** rb_link_node: hang newNode as a red leaf at the given link. */
    method LinkNode(newNode: Ptr, parent: Ptr, link: Link, ghost p: Path)
      requires Valid() && shape == Plug(p, Leaf) && newNode != NULL && newNode !in Nodes(shape)
      requires parent == ParentPtr(p) && link == LinkOf(p)
      modifies this
      ensures Valid() && shape == Plug(p, Node(Leaf, newNode, Red, Leaf))
      ensures cells.Keys == old(cells.Keys) + {newNode}
      ensures forall x :: x in old(cells) && x != newNode && x !in old(Nodes(shape)) ==> cells[x] == old(cells)[x]
    {
      Look(p, Leaf);
      NodesPlug(p, Leaf);
      cells := cells[newNode := Cell(NULL, NULL, parent, Red)];
      match link {
        case AtRoot => root := newNode;
        case AtLeft(x) => cells := WithLeft(cells, x, newNode);
        case AtRight(x) => cells := WithRight(cells, x, newNode);
      }
      shape := Plug(p, Node(Leaf, newNode, Red, Leaf));
      HangLaid(old(cells), cells, p, newNode);
      RootPlug(p, Leaf, Node(Leaf, newNode, Red, Leaf));
    }

    /** rb_link_node followed by rb_insert_color, as every user of the tree calls them. */
    method LinkAndColor(newNode: Ptr, parent: Ptr, link: Link, ghost p: Path)
      requires Valid() && RedBlack(shape) && shape == Plug(p, Leaf) && newNode != NULL && newNode !in Nodes(shape)
      requires parent == ParentPtr(p) && link == LinkOf(p)
      modifies this
      ensures Valid() && RedBlack(shape)
      ensures Inorder(shape) == Before(p) + [newNode] + After(p)
      ensures old(Inorder(shape)) == Before(p) + After(p)
      ensures Nodes(shape) == old(Nodes(shape)) + {newNode}
      ensures cells.Keys == old(cells.Keys) + {newNode}
      ensures forall x :: x in old(cells) && x != newNode && x !in old(Nodes(shape)) ==> cells[x] == old(cells)[x]
    {
      ghost var leaf := Node(Leaf, newNode, Red, Leaf);
      NewLeaf(p, newNode);
      LinkNode(newNode, parent, link, p);
      InsertColor(newNode, p, leaf);
    }

    /** The pointer updates of rb_replace_node. */
    method ReplaceLinks(victim: Ptr, newNode: Ptr)
      requires NULL !in cells && newNode != NULL && victim in cells && TransplantReady(cells, victim, newNode)
      modifies this`cells, this`root
      ensures Transplanted(old(cells), cells, victim, newNode)
      ensures root == if old(cells)[victim].parent == NULL then newNode else old(root)
    {
      var parent := cells[victim].parent;
      if parent != NULL {
        if victim == cells[parent].left {
          cells := WithLeft(cells, parent, newNode);
        } else {
          cells := WithRight(cells, parent, newNode);
        }
      } else {
        root := newNode;
      }
      if cells[victim].left != NULL {
        cells := WithParent(cells, cells[victim].left, newNode);
      }
      if cells[victim].right != NULL {
        cells := WithParent(cells, cells[victim].right, newNode);
      }
      cells := cells[newNode := cells[victim]];
    }

    /** rb_replace_node: newNode, which is not in the tree, takes the place of victim. */
    method ReplaceNode(victim: Ptr, newNode: Ptr, ghost p: Path, ghost t: Tree)
      requires Valid() && shape == Plug(p, t) && t.Node? && t.id == victim
      requires newNode != NULL && newNode !in Nodes(shape)
      modifies this
      ensures Valid() && shape == Plug(p, t.(id := newNode))
      ensures RedBlack(old(shape)) ==> RedBlack(shape)
      ensures Inorder(shape) == Before(p) + (Inorder(t.left) + [newNode] + Inorder(t.right)) + After(p)
      ensures old(Inorder(shape)) == Before(p) + (Inorder(t.left) + [victim] + Inorder(t.right)) + After(p)
    {
      Look(p, t);
      LookBelow(p, t);
      ReplaceFacts(cells, p, t);
      ReplaceLinks(victim, newNode);
      shape := Plug(p, t.(id := newNode));
      TransplantedReplaces(old(cells), cells, p, t, newNode);
      RootPlug(p, t, t.(id := newNode));
      InorderPlug(p, t);
      InorderPlug(p, t.(id := newNode));
      ReplaceKeepsRedBlack(p, t, newNode);
    }

    /** rb_first */
    method First() returns (n: Ptr)
      requires Valid()
      ensures n == At(Inorder(shape), 0)
    {
      n := root;
      if n == NULL {
        LaidKeys(cells, shape, NULL);
        return NULL;
      }
      ghost var q, v;
      n, q, v := Leftmost(root, Top, shape);
      SuccessorFirst(q, v);
    }

    /** The loop of rb_last and rb_prev that goes right as far as possible. */
    method Rightmost(start: Ptr, ghost base: Path, ghost r: Tree) returns (node: Ptr, ghost q: Path, ghost v: Tree)
      requires Valid() && shape == Plug(base, r) && r.Node? && start == r.id
      ensures Plug(q, v) == r && After(q) == [] && v.Node? && v.id == node && v.right.Leaf?
    {
      node := start;
      q, v := Top, r;
      PlugAppend(q, base, v);
      Look(Append(q, base), v);
      while cells[node].right != NULL
        invariant Plug(q, v) == r && After(q) == [] && v.Node? && v.id == node
        invariant HoldsRoot(cells, v, ParentPtr(Append(q, base)))
        decreases v
      {
        node := cells[node].right;
        q, v := In(R, v.id, v.color, v.left, q), v.right;
        PlugAppend(q, base, v);
        Look(Append(q, base), v);
      }
      PlugAppend(q, base, v);
      LookBelow(Append(q, base), v);
    }

    /** rb_last */
    method Last() returns (n: Ptr)
      requires Valid()
      ensures n == At(Inorder(shape), |Inorder(shape)| - 1)
    {
      n := root;
      if n == NULL {
        LaidKeys(cells, shape, NULL);
        return NULL;
      }
      ghost var q, v;
      n, q, v := Rightmost(root, Top, shape);
      PredecessorLast(q, v);
    }

    /** The loop of rb_next that goes up while coming from the right. */
    method ClimbLeft(start: Ptr, ghost p0: Path, ghost t0: Tree) returns (parent: Ptr, ghost p: Path, ghost t: Tree)
      requires Valid() && shape == Plug(p0, t0) && t0.Node? && t0.id == start
      ensures shape == Plug(p, t) && t.Node? && Before(p) + Inorder(t) == Before(p0) + Inorder(t0)
        && parent == At(After(p), 0)
    {
      p, t := p0, t0;
      var node := start;
      Look(p, t);
      parent := cells[node].parent;
      while parent != NULL && node == cells[parent].right
        invariant shape == Plug(p, t) && t.Node? && t.id == node
        invariant Before(p) + Inorder(t) == Before(p0) + Inorder(t0)
        invariant parent == ParentPtr(p) && LooksLike(cells, p, t)
        decreases Depth(p)
      {
        assert p.side == R;
        GatherLeft(p, t);
        p, t := p.up, Join(R, t, p.id, p.color, p.sibling);
        node := parent;
        Look(p, t);
        parent := cells[node].parent;
      }
      OutermostAfter(p);
    }

    /** rb_next */
    method Next(start: Ptr) returns (next: Ptr)
      requires Valid() && start in Nodes(shape)
      ensures forall i :: 0 <= i < |Inorder(shape)| && Inorder(shape)[i] == start ==> next == At(Inorder(shape), i + 1)
    {
      ghost var p, t := Locate(shape, start, Top);
      Look(p, t);
      LookBelow(p, t);
      ReplaceFacts(cells, p, t);
      LaidDistinct(cells, shape, NULL);
      if cells[start].parent == start {
        return NULL;
      }
      if cells[start].right != NULL {
        ghost var q, v;
        next, q, v := Leftmost(cells[start].right, In(R, start, t.color, t.left, p), t.right);
        SuccessorBelow(p, t, q, v);
      } else {
        next, p, t := ClimbLeft(start, p, t);
        SuccessorAbove(p, t, start);
      }
    }

    /** The loop of rb_prev that goes up while coming from the left. */
    method ClimbRight(start: Ptr, ghost p0: Path, ghost t0: Tree) returns (parent: Ptr, ghost p: Path, ghost t: Tree)
      requires Valid() && shape == Plug(p0, t0) && t0.Node? && t0.id == start
      ensures shape == Plug(p, t) && t.Node? && Inorder(t) + After(p) == Inorder(t0) + After(p0)
        && parent == At(Before(p), |Before(p)| - 1)
    {
      p, t := p0, t0;
      var node := start;
      Look(p, t);
      parent := cells[node].parent;
      while parent != NULL && node == cells[parent].left
        invariant shape == Plug(p, t) && t.Node? && t.id == node
        invariant Inorder(t) + After(p) == Inorder(t0) + After(p0)
        invariant parent == ParentPtr(p) && LooksLike(cells, p, t)
        decreases Depth(p)
      {
        assert p.side == L;
        GatherRight(p, t);
        p, t := p.up, Join(L, t, p.id, p.color, p.sibling);
        node := parent;
        Look(p, t);
        parent := cells[node].parent;
      }
      OutermostBefore(p);
    }

    /** rb_prev */
    method Prev(start: Ptr) returns (prev: Ptr)
      requires Valid() && start in Nodes(shape)
      ensures forall i :: 0 <= i < |Inorder(shape)| && Inorder(shape)[i] == start ==> prev == At(Inorder(shape), i - 1)
    {
      ghost var p, t := Locate(shape, start, Top);
      Look(p, t);
      LookBelow(p, t);
      ReplaceFacts(cells, p, t);
      LaidDistinct(cells, shape, NULL);
      if cells[start].parent == start {
        return NULL;
      }
      if cells[start].left != NULL {
        ghost var q, v;
        prev, q, v := Rightmost(cells[start].left, In(L, start, t.color, t.right, p), t.left);
        PredecessorBelow(p, t, q, v);
      } else {
        prev, p, t := ClimbRight(start, p, t);
        PredecessorAbove(p, t, start);
      }
    }

    /** rb_prev undoes rb_next, and only the last node has no next one. */
    method NextThenPrev(start: Ptr) returns (next: Ptr, back: Ptr)
      requires Valid() && start in Nodes(shape)
      ensures next == NULL <==> start == At(Inorder(shape), |Inorder(shape)| - 1)
      ensures next != NULL ==> next in Nodes(shape) && back == start
    {
      LaidDistinct(cells, shape, NULL);
      LaidKeys(cells, shape, NULL);
      InorderNodes(shape, start);
      ghost var s := Inorder(shape);
      ghost var i :| 0 <= i < |s| && s[i] == start;
      next := Next(start);
      back := NULL;
      if i + 1 < |s| {
        InorderNodes(shape, s[i + 1]);
      }
      if next != NULL {
        back := Prev(next);
      }
    }

    /** The walk of dump_page_errors: rb_first, then rb_next until null. */
    method Walk() returns (visited: seq<Ptr>)
      requires Valid()
      ensures visited == Inorder(shape) && Distinct(visited)
    {
      LaidDistinct(cells, shape, NULL);
      LaidKeys(cells, shape, NULL);
      ghost var s := Inorder(shape);
      visited := [];
      var r := First();
      while r != NULL
        invariant visited <= s && r == At(s, |visited|)
        decreases |s| - |visited|
      {
        assert r in s;
        InorderNodes(shape, r);
        visited := visited + [r];
        r := Next(r);
      }
      if |visited| < |s| {
        InorderNodes(shape, s[|visited|]);
      }
    }
  }
}
