/** The red-black tree macros of libuv-dll/include/tree.h, on nodes linked by pointers. */
module RbTree {
  import opened RbSpec
  import opened Seqs

  ghost predicate Holds(n: Node, o: Cell)
    reads n
  {
    n.left == o.left && n.right == o.right && n.parent == o.parent && n.red == o.red
  }

  class RbHead {
    var root: Node?
    ghost var tree: Tree
    ghost var nodes: set<Node>

    /** The linked nodes form the tree `w`. */
    ghost predicate Is(w: Tree)
      reads this`root, this`nodes, nodes
    {
      && root == Ptr(w) && Proper(w) && nodes == Nodes(w)
      && (forall n: Node {:trigger n in nodes} :: n in nodes ==> Holds(n, Cells(w, null)[n]))
    }

    /** What the node in focus holds. */
    lemma Look(c: Ctx, t: Tree)
      requires Is(Plug(c, t)) && t.T?
      ensures t.n in Nodes(Plug(c, t))
      ensures t.n.left == Ptr(t.l) && t.n.right == Ptr(t.r) && t.n.parent == ParentOf(c) && t.n.red == t.red
    {
      FocusCell(c, t);
    }

    /** Of the node above the focus. */
    lemma LookUp(c: Ctx, t: Tree)
      requires Is(Plug(c, t)) && !c.Top?
      ensures c.n in Nodes(Plug(c, t)) && c.n !in Nodes(t)
      ensures c.n.parent == ParentOf(c.up) && c.n.red == c.red
      ensures c.InL? ==> c.n.left == Ptr(t) && c.n.right == Ptr(c.r) && (t.T? ==> c.n.right != Ptr(t))
      ensures c.InR? ==> c.n.right == Ptr(t) && c.n.left == Ptr(c.l) && (t.T? ==> c.n.left != Ptr(t))
    {
      PlugNodes(c, t);
      if c.InL? {
        Look(c.up, T(t, c.n, c.red, c.r));
      } else {
        Look(c.up, T(c.l, c.n, c.red, t));
      }
    }

    /** Give the child, if there is one, the parent `p`. */
    static method SetParent(child: Node?, p: Node?)
      modifies if child == null then {} else {child}
      ensures child != null ==>
                child.parent == p && child.left == old(child.left) && child.right == old(child.right) && child.red == old(child.red)
    {
      if child != null {
        child.parent := p;
      }
    }

    /** Hang `to` where `from` hangs, below `par` or at the root. */
    method Rehang(par: Node?, from: Node?, to: Node?)
      modifies this`root, if par == null then {} else {par}
      ensures root == if par == null then to else old(root)
      ensures par != null ==> par.parent == old(par.parent) && par.red == old(par.red)
      ensures par != null && old(par.left) == from ==> par.left == to && par.right == old(par.right)
      ensures par != null && old(par.left) != from ==> par.left == old(par.left) && par.right == to
    {
      if par != null {
        if par.left == from {
          par.left := to;
        } else {
          par.right := to;
        }
      } else {
        root := to;
      }
    }

    /** The assignments of RB_ROTATE_LEFT. */
    method RelinkLeft(elm: Node, tmp: Node, par: Node?, mid: Node?)
      requires elm.right == tmp && elm.parent == par && tmp.left == mid && elm != tmp
      requires mid != elm && mid != tmp && par != elm && par != tmp && (mid != null ==> mid != par)
      modifies this`root, elm, tmp, if par == null then {} else {par}, if mid == null then {} else {mid}
      ensures Holds(elm, old(Cell(elm.left, mid, tmp, elm.red))) && Holds(tmp, old(Cell(elm, tmp.right, par, tmp.red)))
      ensures mid != null ==> Holds(mid, old(Cell(mid.left, mid.right, elm, mid.red)))
      ensures root == if par == null then tmp else old(root)
      ensures par != null && old(par.left) == elm ==> Holds(par, old(Cell(tmp, par.right, par.parent, par.red)))
      ensures par != null && old(par.left) != elm ==> Holds(par, old(Cell(par.left, tmp, par.parent, par.red)))
    {
      elm.right := tmp.left;
      SetParent(tmp.left, elm);
      tmp.parent := elm.parent;
      Rehang(elm.parent, elm, tmp);
      tmp.left := elm;
      elm.parent := tmp;
    }

    /** RB_ROTATE_LEFT */
    method RotateLeft(elm: Node, ghost c: Ctx, ghost t: Tree)
      requires Is(Plug(c, t)) && t.T? && t.n == elm && t.r.T?
      modifies this`root, nodes
      ensures Is(Plug(c, RotateL(t)))
    {
      hide Cells;
      hide CellsC;
      hide Nodes;
      hide NodesC;
      hide Proper;
      hide Plug;
      ghost var w' := Plug(c, RotateL(t));
      LeftPlaces(c, t);
      RelinkLeft(elm, elm.right, elm.parent, elm.right.left);
      forall n: Node | n in nodes ensures Holds(n, Cells(w', null)[n]) {
        RotateLCell(c, t, n);
      }
    }

    /** The nodes that a rotation to the left touches. */
    lemma LeftPlaces(c: Ctx, t: Tree)
      requires Is(Plug(c, t)) && t.T? && t.r.T?
      ensures var w := nodes;
        && t.n in w && t.r.n in w && t.n != t.r.n
        && Holds(t.n, Cell(Ptr(t.l), t.r.n, ParentOf(c), t.red))
        && Holds(t.r.n, Cell(Ptr(t.r.l), Ptr(t.r.r), t.n, t.r.red))
        && (t.r.l.T? ==> t.r.l.n in w && t.r.l.n != t.n && t.r.l.n != t.r.n)
        && (!c.Top? ==> c.n in w && c.n != t.n && c.n != t.r.n && Ptr(t.r.l) != c.n)
        && (c.InL? ==> c.n.left == t.n) && (c.InR? ==> c.n.left != t.n && c.n.right == t.n)
      ensures nodes == Nodes(Plug(c, t)) == Nodes(Plug(c, RotateL(t))) && Proper(Plug(c, RotateL(t)))
      ensures Ptr(Plug(c, RotateL(t))) == if c.Top? then t.r.n else root
    {
      hide Is;
      hide Cells;
      IsRoot(Plug(c, t));
      RotateLNodes(c, t);
      UpOne(c, t.l, t.n, t.red, t.r);
      PlugNodes(c, t);
      Look(c, t);
      Look(InR(c, t.n, t.red, t.l), t.r);
      if !c.Top? {
        LookUp(c, t);
        RootOfPlug(c, t, RotateL(t));
      }
    }

    lemma IsRoot(w: Tree)
      requires Is(w)
      ensures root == Ptr(w) && Proper(w) && nodes == Nodes(w)
    {
    }

    /** The assignments of RB_ROTATE_RIGHT. */
    method RelinkRight(elm: Node, tmp: Node, par: Node?, mid: Node?)
      requires elm.left == tmp && elm.parent == par && tmp.right == mid && elm != tmp
      requires mid != elm && mid != tmp && par != elm && par != tmp && (mid != null ==> mid != par)
      modifies this`root, elm, tmp, if par == null then {} else {par}, if mid == null then {} else {mid}
      ensures Holds(elm, old(Cell(mid, elm.right, tmp, elm.red))) && Holds(tmp, old(Cell(tmp.left, elm, par, tmp.red)))
      ensures mid != null ==> Holds(mid, old(Cell(mid.left, mid.right, elm, mid.red)))
      ensures root == if par == null then tmp else old(root)
      ensures par != null && old(par.left) == elm ==> Holds(par, old(Cell(tmp, par.right, par.parent, par.red)))
      ensures par != null && old(par.left) != elm ==> Holds(par, old(Cell(par.left, tmp, par.parent, par.red)))
    {
      elm.left := tmp.right;
      SetParent(tmp.right, elm);
      tmp.parent := elm.parent;
      Rehang(elm.parent, elm, tmp);
      tmp.right := elm;
      elm.parent := tmp;
    }

    /** RB_ROTATE_RIGHT */
    method RotateRight(elm: Node, ghost c: Ctx, ghost t: Tree)
      requires Is(Plug(c, t)) && t.T? && t.n == elm && t.l.T?
      modifies this`root, nodes
      ensures Is(Plug(c, RotateR(t)))
    {
      hide Cells;
      hide CellsC;
      hide Nodes;
      hide NodesC;
      hide Proper;
      hide Plug;
      ghost var w' := Plug(c, RotateR(t));
      RightPlaces(c, t);
      RelinkRight(elm, elm.left, elm.parent, elm.left.right);
      forall n: Node | n in nodes ensures Holds(n, Cells(w', null)[n]) {
        RotateRCell(c, t, n);
      }
    }

    /** The nodes that a rotation to the right touches. */
    lemma RightPlaces(c: Ctx, t: Tree)
      requires Is(Plug(c, t)) && t.T? && t.l.T?
      ensures var w := nodes;
        && t.n in w && t.l.n in w && t.n != t.l.n
        && Holds(t.n, Cell(t.l.n, Ptr(t.r), ParentOf(c), t.red))
        && Holds(t.l.n, Cell(Ptr(t.l.l), Ptr(t.l.r), t.n, t.l.red))
        && (t.l.r.T? ==> t.l.r.n in w && t.l.r.n != t.n && t.l.r.n != t.l.n)
        && (!c.Top? ==> c.n in w && c.n != t.n && c.n != t.l.n && Ptr(t.l.r) != c.n)
        && (c.InL? ==> c.n.left == t.n) && (c.InR? ==> c.n.left != t.n && c.n.right == t.n)
      ensures nodes == Nodes(Plug(c, t)) == Nodes(Plug(c, RotateR(t))) && Proper(Plug(c, RotateR(t)))
      ensures Ptr(Plug(c, RotateR(t))) == if c.Top? then t.l.n else root
    {
      hide Is;
      hide Cells;
      IsRoot(Plug(c, t));
      RotateRNodes(c, t);
      UpOne(c, t.l, t.n, t.red, t.r);
      PlugNodes(c, t);
      Look(c, t);
      Look(InL(c, t.n, t.red, t.r), t.l);
      if !c.Top? {
        LookUp(c, t);
        RootOfPlug(c, t, RotateR(t));
      }
    }

    /** RB_COLOR(n) = red */
    method Paint(n: Node, red: bool, ghost c: Ctx, ghost t: Tree)
      requires Is(Plug(c, t)) && t.T? && t.n == n
      modifies nodes
      ensures Is(Plug(c, t.(red := red)))
    {
      hide Cells;
      hide CellsC;
      hide Nodes;
      hide NodesC;
      hide Proper;
      hide Plug;
      ghost var w' := Plug(c, t.(red := red));
      Look(c, t);
      IsRoot(Plug(c, t));
      RootOfPlug(c, t, t.(red := red));
      PaintCell(c, t, red, n);
      n.red := red;
      forall x: Node | x in nodes ensures Holds(x, Cells(w', null)[x]) {
        PaintCell(c, t, red, x);
      }
    }
  
    /** RB_INSERT_COLOR when the uncle `tmp` is red. */
    method Recolor(tmp: Node, parent: Node, gparent: Node, ghost c: Ctx, ghost t: Tree)
      requires Is(Plug(c, t)) && RedTop(c) && !c.up.Top? && IsRed(Sibling(c.up))
      requires tmp == Sibling(c.up).n && parent == c.n && gparent == c.up.n
      modifies nodes
      ensures Is(Plug(c.up.up, Recolored(c, t)))
    {
      hide Is;
      hide Plug;
      ghost var p, s, g := Above(c, t), Sibling(c.up), c.up;
      ghost var s', p' := Blacken(s), Blacken(p);
      SameTree(c, t, t);
      SameTree(g, p, s');
      Paint(tmp, false, Beside(g, p), s);
      ghost var g' := WithSibling(g, s');
      Paint(parent, false, g', p);
      SameTree(g', p', s');
      Paint(gparent, true, g.up, Above(g', p'));
    }

    /** RB_INSERT_COLOR when the uncle is not red: first make the red child an outer one, then let its
        parent take the place of the grandparent; on the left. */
    method RaiseL(elm0: Node, parent0: Node, gparent: Node, ghost c0: Ctx, ghost t0: Tree)
      returns (elm: Node, ghost c: Ctx, ghost t: Tree)
      requires Is(Plug(c0, t0)) && RedFocus(c0, t0) && RedTop(c0) && c0.up.InL? && !IsRed(c0.up.r)
      requires elm0 == Ptr(t0) && parent0 == c0.n && gparent == c0.up.n
      modifies this`root, nodes
      ensures Is(Plug(c, t)) && RedFocus(c, t) && Ptr(t) == elm && Depth(c) < Depth(c0)
      ensures Elems(Plug(c, t)) == Elems(Plug(c0, t0))
    {
      hide Is;
      hide Plug;
      hide RedFocus;
      hide Elems;
      elm, c, t := elm0, c0, t0;
      LookUp(c, t);
      var parent := parent0;
      if parent.right == elm {
        TurnKeepsL(c, t);
        SameTree(c, t, t);
        RotateKeeps(c.up, Above(c, t));
        RotateLeft(parent, c.up, Above(c, t));
        c, t := InL(c.up, t.n, t.red, t.r), T(c.l, c.n, c.red, t.l);
        SameTree(c, t, t);
        elm, parent := parent, elm;
      }
      RaiseKeepsL(c, t);
      RotateGrandparentR(parent, gparent, c, t);
      c := RaisedL(c);
    }

    /** Paint the parent black and the grandparent red, and rotate the grandparent to the right. */
    method RotateGrandparentR(parent: Node, gparent: Node, ghost c: Ctx, ghost t: Tree)
      requires Is(Plug(c, t)) && c.InL? && c.up.InL? && parent == c.n && gparent == c.up.n
      modifies this`root, nodes
      ensures Is(Plug(RaisedL(c), t))
    {
      hide Is;
      hide Plug;
      ghost var p, g := Above(c, t), c.up;
      SameTree(c, t, t);
      SameTree(g, p, Sibling(g));
      Paint(parent, false, g, p);
      SameTree(g, Blacken(p), Sibling(g));
      Paint(gparent, true, g.up, Above(g, Blacken(p)));
      RotateRight(gparent, g.up, T(Blacken(p), g.n, true, g.r));
      SameTree(RaisedL(c), t, t);
    }

    /** The same on the right. */
    method RaiseR(elm0: Node, parent0: Node, gparent: Node, ghost c0: Ctx, ghost t0: Tree)
      returns (elm: Node, ghost c: Ctx, ghost t: Tree)
      requires Is(Plug(c0, t0)) && RedFocus(c0, t0) && RedTop(c0) && c0.up.InR? && !IsRed(c0.up.l)
      requires elm0 == Ptr(t0) && parent0 == c0.n && gparent == c0.up.n
      modifies this`root, nodes
      ensures Is(Plug(c, t)) && RedFocus(c, t) && Ptr(t) == elm && Depth(c) < Depth(c0)
      ensures Elems(Plug(c, t)) == Elems(Plug(c0, t0))
    {
      hide Is;
      hide Plug;
      hide RedFocus;
      hide Elems;
      elm, c, t := elm0, c0, t0;
      LookUp(c, t);
      var parent := parent0;
      if parent.left == elm {
        TurnKeepsR(c, t);
        SameTree(c, t, t);
        RotateKeeps(c.up, Above(c, t));
        RotateRight(parent, c.up, Above(c, t));
        c, t := InR(c.up, t.n, t.red, t.l), T(t.r, c.n, c.red, c.r);
        SameTree(c, t, t);
        elm, parent := parent, elm;
      }
      RaiseKeepsR(c, t);
      RotateGrandparentL(parent, gparent, c, t);
      c := RaisedR(c);
    }

    method RotateGrandparentL(parent: Node, gparent: Node, ghost c: Ctx, ghost t: Tree)
      requires Is(Plug(c, t)) && c.InR? && c.up.InR? && parent == c.n && gparent == c.up.n
      modifies this`root, nodes
      ensures Is(Plug(RaisedR(c), t))
    {
      hide Is;
      hide Plug;
      ghost var p, g := Above(c, t), c.up;
      SameTree(c, t, t);
      SameTree(g, p, Sibling(g));
      Paint(parent, false, g, p);
      SameTree(g, Blacken(p), Sibling(g));
      Paint(gparent, true, g.up, Above(g, Blacken(p)));
      RotateLeft(gparent, g.up, T(g.l, g.n, true, Blacken(p)));
      SameTree(RaisedR(c), t, t);
    }

    /** RB_INSERT_COLOR: a red node has been put in; let it have no red parent. */
    method InsertColor(elm0: Node, ghost c0: Ctx, ghost t0: Tree) returns (ghost w: Tree)
      requires Is(Plug(c0, t0)) && RedFocus(c0, t0) && elm0 == Ptr(t0)
      modifies this`root, nodes
      ensures Is(w) && RedBlack(w) && Elems(w) == Elems(Plug(c0, t0))
    {
      hide Is;
      hide Plug;
      hide RedFocus;
      hide Elems;
      var elm := elm0;
      ghost var c, t := c0, t0;
      InFocus(c, t);
      var parent := elm.parent;
      while parent != null && parent.red
        invariant Is(Plug(c, t)) && RedFocus(c, t) && Ptr(t) == elm && parent == ParentOf(c)
        invariant parent != null ==> parent.red == c.red
        invariant Elems(Plug(c, t)) == Elems(Plug(c0, t0))
        decreases Depth(c)
      {
        Grandparent(c, t);
        SameTree(c, t, t);
        LookUp(c.up, Above(c, t));
        LookUp(c, t);
        LookBeside(c.up, Above(c, t));
        var gparent := parent.parent;
        if parent == gparent.left {
          var tmp := gparent.right;
          if tmp != null && tmp.red {
            RecolorKeeps(c, t);
            Recolor(tmp, parent, gparent, c, t);
            elm, c, t := gparent, c.up.up, Recolored(c, t);
          } else {
            elm, c, t := RaiseL(elm, parent, gparent, c, t);
          }
        } else {
          var tmp := gparent.left;
          if tmp != null && tmp.red {
            RecolorKeeps(c, t);
            Recolor(tmp, parent, gparent, c, t);
            elm, c, t := gparent, c.up.up, Recolored(c, t);
          } else {
            elm, c, t := RaiseR(elm, parent, gparent, c, t);
          }
        }
        InFocus(c, t);
        parent := elm.parent;
      }
      FocusDone(c, t);
      w := Blacken(Plug(c, t));
      PaintElems(Plug(c, t), false);
      PaintRoot(Plug(c, t));
    }

    /** RB_COLOR(head->rbh_root) = RB_BLACK */
    method PaintRoot(ghost w: Tree)
      requires Is(w) && w.T?
      modifies nodes
      ensures Is(Blacken(w))
    {
      hide Is;
      IsRoot(w);
      Paint(root, false, Top, w);
    }

    lemma LookBeside(c: Ctx, t: Tree)
      requires Is(Plug(c, t)) && !c.Top?
      ensures Sibling(c).T? ==> Sibling(c).n.red == Sibling(c).red
    {
      hide Is;
      hide Plug;
      SameTree(c, t, t);
      if Sibling(c).T? {
        Look(Beside(c, t), Sibling(c));
      }
    }

    lemma InFocus(c: Ctx, t: Tree)
      requires Is(Plug(c, t)) && RedFocus(c, t)
      ensures t.T? && t.n.parent == ParentOf(c) && (!c.Top? ==> c.n.red == c.red)
    {
      Look(c, t);
      if !c.Top? {
        LookUp(c, t);
      }
    }

    /** A search tree that is red-black. */
    ghost predicate Valid()
      reads this, nodes
    {
      Is(tree) && RedBlack(tree) && Sorted(Elems(tree))
    }

    /** RB_INIT */
    constructor ()
      ensures Valid() && nodes == {} && tree == Nil
    {
      root, tree, nodes := null, Nil, {};
    }

    /** RB_SET, and the link from the parent, on the left or the right. */
    method Attach(elm: Node, parent: Node?, left: bool, ghost c: Ctx)
      requires Is(Plug(c, Nil)) && elm !in nodes && parent == ParentOf(c) && left == c.InL?
      modifies this, nodes, elm
      ensures Is(Plug(c, T(Nil, elm, true, Nil))) && nodes == old(nodes) + {elm} && tree == old(tree)
    {
      hide Cells;
      hide CellsC;
      hide Nodes;
      hide NodesC;
      hide Proper;
      hide Plug;
      ghost var t := T(Nil, elm, true, Nil);
      ghost var w, w' := Plug(c, Nil), Plug(c, t);
      AttachPlaces(c, elm);
      elm.parent := parent;
      elm.left, elm.right := null, null;
      elm.red := true;
      if parent != null {
        if left {
          parent.left := elm;
        } else {
          parent.right := elm;
        }
      } else {
        root := elm;
      }
      nodes := nodes + {elm};
      forall n: Node | n in nodes ensures Holds(n, Cells(w', null)[n]) {
        if n == elm {
          FocusCell(c, t);
        } else {
          InHole(c, Nil, n);
          HoleCell(c, Nil, t, n);
        }
      }
    }

    lemma AttachPlaces(c: Ctx, elm: Node)
      requires Is(Plug(c, Nil)) && elm !in nodes
      ensures var w' := Plug(c, T(Nil, elm, true, Nil));
        && Proper(w') && Nodes(w') == nodes + {elm}
        && Ptr(w') == (if c.Top? then elm else root) && (!c.Top? ==> c.n in nodes && c.n != elm)
    {
      hide Is;
      var t := T(Nil, elm, true, Nil);
      IsRoot(Plug(c, Nil));
      PlugNodes(c, Nil);
      PlugNodes(c, t);
      if !c.Top? {
        RootOfPlug(c, Nil, t);
      }
    }

    /** RB_INSERT: the node with the same key if there is one, and otherwise null. */
    method Insert(elm: Node) returns (r: Node?)
      requires Valid()
      modifies this, nodes, elm
      ensures Valid()
      ensures r == null <==> forall n :: n in old(nodes) ==> n.key != elm.key
      ensures r == null ==> nodes == old(nodes) + {elm} && Inserted(old(Elems(tree)), Elems(tree), elm)
      ensures r != null ==> r in nodes && r.key == elm.key && nodes == old(nodes) && tree == old(tree)
    {
      hide Cells;
      hide Nodes;
      hide Proper;
      hide Plug;
      hide RedBlack;
      hide Elems;
      hide Sorted;
      hide Around;
      IsRoot(tree);
      var parent: Node?, left := null, false;
      ghost var c, t := Top, tree;
      AtTop(tree, elm.key);
      var tmp := root;
      while tmp != null
        invariant Plug(c, t) == tree && tmp == Ptr(t) && parent == ParentOf(c) && left == c.InL?
        invariant Around(c, elm.key)
        modifies {}
        decreases t
      {
        parent := tmp;
        Look(c, t);
        if elm.key < parent.key {
          GoLeft(c, t, elm.key);
          UpOne(c, t.l, t.n, t.red, t.r);
          c, t := InL(c, t.n, t.red, t.r), t.l;
          tmp, left := tmp.left, true;
        } else if elm.key > parent.key {
          GoRight(c, t, elm.key);
          UpOne(c, t.l, t.n, t.red, t.r);
          c, t := InR(c, t.n, t.red, t.l), t.r;
          tmp, left := tmp.right, false;
        } else {
          return tmp;
        }
      }
      PutIn(c, elm);
      NoKey(tree, elm.key);
      Attach(elm, parent, left, c);
      ReadyForRed(c, elm);
      tree := InsertColor(elm, c, T(Nil, elm, true, Nil));
      r := null;
    }

    // ---------- removal ----------

    /** RB_REMOVE_COLOR on the left, when the sibling `tmp` is red. */
    method RedSiblingL(parent: Node, tmp: Node, ghost c: Ctx, ghost t: Tree)
      requires Is(Plug(c, t)) && c.InL? && c.r.T? && tmp == c.r.n && parent == c.n
      modifies this`root, nodes
      ensures Is(Plug(LoweredL(c), t))
    {
      hide Is;
      hide Plug;
      SameTree(c, t, Blacken(c.r));
      Paint(tmp, false, Beside(c, t), c.r);
      ghost var c' := WithSibling(c, Blacken(c.r));
      SameTree(c', t, t);
      Paint(parent, true, c.up, Above(c', t));
      RotateLeft(parent, c.up, T(t, c.n, true, Blacken(c.r)));
      SameTree(LoweredL(c), t, t);
      SameTree(LoweredL(c).up, Above(LoweredL(c), t), t);
    }

    /** When the sibling is black with a red inner child only. */
    method InnerRaiseL(parent: Node, tmp: Node, ghost c: Ctx, ghost t: Tree)
      requires Is(Plug(c, t)) && c.InL? && c.r.T? && c.r.l.T? && tmp == c.r.n && parent == c.n
      modifies this`root, nodes
      ensures Is(Plug(WithSibling(c, InnerRaisedL(c.r)), t))
    {
      hide Is;
      hide Plug;
      ghost var b, s := Beside(c, t), c.r;
      SameTree(c, t, InnerRaisedL(s));
      Look(b, s);
      UpOne(b, s.l, s.n, s.red, s.r);
      var inner := tmp.left;
      if inner != null {
        Paint(inner, false, InL(b, s.n, s.red, s.r), s.l);
      }
      ghost var s' := T(Blacken(s.l), s.n, s.red, s.r);
      UpOne(b, s'.l, s'.n, s'.red, s'.r);
      Paint(tmp, true, b, s');
      RotateRight(tmp, b, s'.(red := true));
    }

    /** When the outer child of the sibling is red. */
    method FillL(parent: Node, tmp: Node, ghost c: Ctx, ghost t: Tree)
      requires Is(Plug(c, t)) && c.InL? && c.r.T? && tmp == c.r.n && parent == c.n
      modifies this`root, nodes
      ensures Is(Plug(c.up, FilledL(c, t)))
    {
      hide Is;
      hide Plug;
      ghost var s := c.r;
      ghost var s' := s.(red := c.red);
      SameTree(c, t, s');
      LookUp(c, t);
      Paint(tmp, parent.red, Beside(c, t), s);
      ghost var c' := WithSibling(c, s');
      SameTree(c', t, t);
      Paint(parent, false, c.up, Above(c', t));
      ghost var b := InR(c.up, c.n, false, t);
      ghost var v := T(t, c.n, false, s');
      UpOne(c.up, v.l, v.n, v.red, v.r);
      UpOne(b, s'.l, s'.n, s'.red, s'.r);
      Look(b, s');
      if tmp.right != null {
        Paint(tmp.right, false, InR(b, s'.n, s'.red, s'.l), s'.r);
      }
      ghost var s'' := T(s'.l, s'.n, s'.red, Blacken(s'.r));
      UpOne(b, s''.l, s''.n, s''.red, s''.r);
      ghost var v' := T(t, c.n, false, s'');
      UpOne(c.up, v'.l, v'.n, v'.red, v'.r);
      RotateLeft(parent, c.up, v');
    }

    /** RB_REMOVE_COLOR on the right, when the sibling `tmp` is red. */
    method RedSiblingR(parent: Node, tmp: Node, ghost c: Ctx, ghost t: Tree)
      requires Is(Plug(c, t)) && c.InR? && c.l.T? && tmp == c.l.n && parent == c.n
      modifies this`root, nodes
      ensures Is(Plug(LoweredR(c), t))
    {
      hide Is;
      hide Plug;
      SameTree(c, t, Blacken(c.l));
      Paint(tmp, false, Beside(c, t), c.l);
      ghost var c' := WithSibling(c, Blacken(c.l));
      SameTree(c', t, t);
      Paint(parent, true, c.up, Above(c', t));
      RotateRight(parent, c.up, T(Blacken(c.l), c.n, true, t));
      SameTree(LoweredR(c), t, t);
      SameTree(LoweredR(c).up, Above(LoweredR(c), t), t);
    }

    /** When the sibling is black with a red inner child only. */
    method InnerRaiseR(parent: Node, tmp: Node, ghost c: Ctx, ghost t: Tree)
      requires Is(Plug(c, t)) && c.InR? && c.l.T? && c.l.r.T? && tmp == c.l.n && parent == c.n
      modifies this`root, nodes
      ensures Is(Plug(WithSibling(c, InnerRaisedR(c.l)), t))
    {
      hide Is;
      hide Plug;
      ghost var b, s := Beside(c, t), c.l;
      SameTree(c, t, InnerRaisedR(s));
      Look(b, s);
      UpOne(b, s.l, s.n, s.red, s.r);
      var inner := tmp.right;
      if inner != null {
        Paint(inner, false, InR(b, s.n, s.red, s.l), s.r);
      }
      ghost var s' := T(s.l, s.n, s.red, Blacken(s.r));
      UpOne(b, s'.l, s'.n, s'.red, s'.r);
      Paint(tmp, true, b, s');
      RotateLeft(tmp, b, s'.(red := true));
    }

    /** When the outer child of the sibling is red. */
    method FillR(parent: Node, tmp: Node, ghost c: Ctx, ghost t: Tree)
      requires Is(Plug(c, t)) && c.InR? && c.l.T? && tmp == c.l.n && parent == c.n
      modifies this`root, nodes
      ensures Is(Plug(c.up, FilledR(c, t)))
    {
      hide Is;
      hide Plug;
      ghost var s := c.l;
      ghost var s' := s.(red := c.red);
      SameTree(c, t, s');
      LookUp(c, t);
      Paint(tmp, parent.red, Beside(c, t), s);
      ghost var c' := WithSibling(c, s');
      SameTree(c', t, t);
      Paint(parent, false, c.up, Above(c', t));
      ghost var b := InL(c.up, c.n, false, t);
      ghost var v := T(s', c.n, false, t);
      UpOne(c.up, v.l, v.n, v.red, v.r);
      UpOne(b, s'.l, s'.n, s'.red, s'.r);
      Look(b, s');
      if tmp.left != null {
        Paint(tmp.left, false, InL(b, s'.n, s'.red, s'.r), s'.l);
      }
      ghost var s'' := T(Blacken(s'.l), s'.n, s'.red, s'.r);
      UpOne(b, s''.l, s''.n, s''.red, s''.r);
      ghost var v' := T(s'', c.n, false, t);
      UpOne(c.up, v'.l, v'.n, v'.red, v'.r);
      RotateRight(parent, c.up, v');
    }

    /** Of the sibling of the focus and its children. */
    lemma LookSibling(c: Ctx, t: Tree)
      requires Is(Plug(c, t)) && !c.Top? && Sibling(c).T?
      ensures var s := Sibling(c);
        && s.n.left == Ptr(s.l) && s.n.right == Ptr(s.r) && s.n.red == s.red
        && (s.l.T? ==> s.l.n.red == s.l.red) && (s.r.T? ==> s.r.n.red == s.r.red)
    {
      hide Is;
      hide Plug;
      var b, s := Beside(c, t), Sibling(c);
      SameTree(c, t, t);
      Look(b, s);
      UpOne(b, s.l, s.n, s.red, s.r);
      if s.l.T? {
        Look(InL(b, s.n, s.red, s.r), s.l);
      }
      if s.r.T? {
        Look(InR(b, s.n, s.red, s.l), s.r);
      }
    }

    /** One round of RB_REMOVE_COLOR on the left; `done` when the whole is red-black. */
    method RemoveL(parent0: Node, elm0: Node?, ghost c0: Ctx, ghost t0: Tree)
      returns (elm: Node?, parent: Node?, done: bool, ghost c: Ctx, ghost t: Tree)
      requires Is(Plug(c0, t0)) && Short(c0, t0) && !IsRed(t0) && c0.InL? && elm0 == Ptr(t0) && parent0 == c0.n
      modifies this`root, nodes
      ensures Is(Plug(c, t)) && Short(c, t) && elm == Ptr(t) && (!c.Top? ==> parent == ParentOf(c))
      ensures Elems(Plug(c, t)) == Elems(Plug(c0, t0)) && (done ==> c.Top?) && (IsRed(t) || Depth(c) < Depth(c0))
    {
      hide Is;
      hide Plug;
      hide Short;
      hide Elems;
      hide RB;
      elm, parent, done, c, t := elm0, parent0, false, c0, t0;
      SiblingExists(c, t);
      LookUp(c, t);
      LookSibling(c, t);
      var tmp: Node := parent.right;
      if tmp.red {
        RedSiblingKeepsL(c, t);
        RedSiblingL(parent, tmp, c, t);
        c := LoweredL(c);
        LookUp(c, t);
        LookSibling(c, t);
        tmp := parent.right;
      }
      if (tmp.left == null || !tmp.left.red) && (tmp.right == null || !tmp.right.red) {
        BlackSiblingKeeps(c, t);
        SameTree(c, t, c.r.(red := true));
        Paint(tmp, true, Beside(c, t), c.r);
        ghost var c' := WithSibling(c, c.r.(red := true));
        SameTree(c', t, t);
        elm := parent;
        c, t := c.up, Above(c', t);
        Look(c, t);
        parent := elm.parent;
      } else {
        if tmp.right == null || !tmp.right.red {
          InnerKeepsL(c, t);
          InnerRaiseL(parent, tmp, c, t);
          c := WithSibling(c, InnerRaisedL(c.r));
          LookUp(c, t);
          LookSibling(c, t);
          tmp := parent.right;
        }
        FilledKeepsL(c, t);
        FillL(parent, tmp, c, t);
        t := Plug(c.up, FilledL(c, t));
        c := Top;
        WholeIsShort(t);
        IsRoot(t);
        elm := root;
        done := true;
      }
    }

    /** One round of RB_REMOVE_COLOR on the right; `done` when the whole is red-black. */
    method RemoveR(parent0: Node, elm0: Node?, ghost c0: Ctx, ghost t0: Tree)
      returns (elm: Node?, parent: Node?, done: bool, ghost c: Ctx, ghost t: Tree)
      requires Is(Plug(c0, t0)) && Short(c0, t0) && !IsRed(t0) && c0.InR? && elm0 == Ptr(t0) && parent0 == c0.n
      modifies this`root, nodes
      ensures Is(Plug(c, t)) && Short(c, t) && elm == Ptr(t) && (!c.Top? ==> parent == ParentOf(c))
      ensures Elems(Plug(c, t)) == Elems(Plug(c0, t0)) && (done ==> c.Top?) && (IsRed(t) || Depth(c) < Depth(c0))
    {
      hide Is;
      hide Plug;
      hide Short;
      hide Elems;
      hide RB;
      elm, parent, done, c, t := elm0, parent0, false, c0, t0;
      SiblingExists(c, t);
      LookUp(c, t);
      LookSibling(c, t);
      var tmp: Node := parent.left;
      if tmp.red {
        RedSiblingKeepsR(c, t);
        RedSiblingR(parent, tmp, c, t);
        c := LoweredR(c);
        LookUp(c, t);
        LookSibling(c, t);
        tmp := parent.left;
      }
      if (tmp.left == null || !tmp.left.red) && (tmp.right == null || !tmp.right.red) {
        BlackSiblingKeeps(c, t);
        SameTree(c, t, c.l.(red := true));
        Paint(tmp, true, Beside(c, t), c.l);
        ghost var c' := WithSibling(c, c.l.(red := true));
        SameTree(c', t, t);
        elm := parent;
        c, t := c.up, Above(c', t);
        Look(c, t);
        parent := elm.parent;
      } else {
        if tmp.left == null || !tmp.left.red {
          InnerKeepsR(c, t);
          InnerRaiseR(parent, tmp, c, t);
          c := WithSibling(c, InnerRaisedR(c.l));
          LookUp(c, t);
          LookSibling(c, t);
          tmp := parent.left;
        }
        FilledKeepsR(c, t);
        FillR(parent, tmp, c, t);
        t := Plug(c.up, FilledR(c, t));
        c := Top;
        WholeIsShort(t);
        IsRoot(t);
        elm := root;
        done := true;
      }
    }

    /** The focus is the root only when it is the whole tree. */
    lemma NotRoot(c: Ctx, t: Tree)
      requires Is(Plug(c, t))
      ensures c.Top? <==> Ptr(t) == root
    {
      PlugNodes(c, t);
      if !c.Top? {
        RootAbove(c, t);
      }
    }

    /** RB_REMOVE_COLOR: the tree `elm` below `parent` is one black node short; make up for it. */
    method RemoveColor(parent0: Node?, elm0: Node?, ghost c0: Ctx, ghost t0: Tree) returns (ghost w: Tree)
      requires Is(Plug(c0, t0)) && Short(c0, t0) && elm0 == Ptr(t0) && parent0 == ParentOf(c0)
      modifies this`root, nodes
      ensures Is(w) && RedBlack(w) && Elems(w) == Elems(Plug(c0, t0))
    {
      hide Is;
      hide Plug;
      hide Short;
      hide Elems;
      var parent, elm := parent0, elm0;
      ghost var c, t := c0, t0;
      NotRoot(c, t);
      LookRed(c, t);
      while (elm == null || !elm.red) && elm != root
        invariant Is(Plug(c, t)) && Short(c, t) && elm == Ptr(t) && (!c.Top? ==> parent == ParentOf(c))
        invariant (c.Top? <==> elm == root) && (t.T? ==> t.n.red == t.red)
        invariant Elems(Plug(c, t)) == Elems(Plug(c0, t0))
        decreases if IsRed(t) then 0 else Depth(c)
      {
        var done;
        ghost var c1 := c;
        SiblingExists(c, t);
        LookUp(c, t);
        LookSides(c, t);
        if parent.left == elm {
          elm, parent, done, c, t := RemoveL(parent, elm, c, t);
        } else {
          elm, parent, done, c, t := RemoveR(parent, elm, c, t);
        }
        NotRoot(c, t);
        LookRed(c, t);
        if done {
          break;
        }
      }
      ShortDone(c, t);
      w := Plug(c, Blacken(t));
      if elm != null {
        Paint(elm, false, c, t);
      }
    }

    lemma LookRed(c: Ctx, t: Tree)
      requires Is(Plug(c, t))
      ensures t.T? ==> t.n.red == t.red
    {
      if t.T? {
        Look(c, t);
      }
    }

    /** The children of a node are told apart by the left pointer when there is a sibling. */
    lemma LookSides(c: Ctx, t: Tree)
      requires Is(Plug(c, t)) && !c.Top? && Sibling(c).T?
      ensures c.InL? <==> c.n.left == Ptr(t)
    {
      PlugNodes(c, t);
      LookUp(c, t);
    }

    method HangChild(elm: Node, child: Node?, parent: Node?)
      requires child != elm && parent != elm && (child != null ==> child != parent)
      modifies this`root, if parent == null then {} else {parent}, if child == null then {} else {child}
      ensures child != null ==> Holds(child, old(Cell(child.left, child.right, parent, child.red)))
      ensures root == if parent == null then child else old(root)
      ensures parent != null && old(parent.left) == elm ==> Holds(parent, old(Cell(child, parent.right, parent.parent, parent.red)))
      ensures parent != null && old(parent.left) != elm ==> Holds(parent, old(Cell(parent.left, child, parent.parent, parent.red)))
    {
      SetParent(child, parent);
      Rehang(parent, elm, child);
    }

    /** Hang the only child of `elm`, if there is one, where `elm` hangs. */
    method Splice(elm: Node, child: Node?, parent: Node?, ghost c: Ctx, ghost t: Tree)
      requires Is(Plug(c, t)) && t.T? && (t.l.Nil? || t.r.Nil?)
      requires elm == t.n && child == Ptr(OnlyChild(t)) && parent == ParentOf(c)
      modifies this`root, this`nodes, nodes - {elm}
      ensures Is(Plug(c, OnlyChild(t))) && nodes == old(nodes) - {elm} && elm in old(nodes)
    {
      hide Cells;
      hide CellsC;
      hide Nodes;
      hide NodesC;
      hide Proper;
      hide Plug;
      ghost var w, w' := Plug(c, t), Plug(c, OnlyChild(t));
      SplicePlaces(c, t);
      SpliceNodes(c, t);
      HangChild(elm, child, parent);
      nodes := nodes - {elm};
      assert nodes == Nodes(w');
      forall n: Node | n in nodes ensures Holds(n, Cells(w', null)[n]) {
        SpliceCell(c, t, n);
      }
    }

    lemma SplicePlaces(c: Ctx, t: Tree)
      requires Is(Plug(c, t)) && t.T? && (t.l.Nil? || t.r.Nil?)
      ensures var w' := Plug(c, OnlyChild(t)); var b := OnlyChild(t);
        && t.n in nodes && Ptr(w') == (if c.Top? then Ptr(b) else root)
        && (b.T? ==> b.n in nodes && b.n != t.n)
        && (!c.Top? ==> c.n in nodes && c.n != t.n && Ptr(b) != c.n)
        && (c.InL? ==> c.n.left == t.n) && (c.InR? ==> c.n.left != t.n && c.n.right == t.n)
    {
      hide Is;
      hide Cells;
      IsRoot(Plug(c, t));
      PlugNodes(c, t);
      Look(c, t);
      if !c.Top? {
        LookUp(c, t);
        RootOfPlug(c, t, OnlyChild(t));
      }
    }

    /** Let `elm` take the place of `gone`, a node with a left child. */
    method Replace(gone: Node, elm: Node, ghost c: Ctx, ghost t: Tree)
      requires Is(Plug(c, t)) && t.T? && t.l.T? && gone == t.n && elm !in nodes
      modifies this`root, this`nodes, nodes, elm
      ensures Is(Plug(c, t.(n := elm))) && nodes == old(nodes) - {gone} + {elm}
    {
      hide Cells;
      hide CellsC;
      hide Nodes;
      hide NodesC;
      hide Proper;
      hide Plug;
      ghost var w, w' := Plug(c, t), Plug(c, t.(n := elm));
      IsRoot(w);
      ReplacePlaces(c, t, elm);
      RenameNodes(c, t, elm);
      TakeOver(gone, elm, gone.parent, gone.left, gone.right);
      nodes := nodes - {gone} + {elm};
      assert nodes == Nodes(w');
      forall n: Node | n in nodes ensures Holds(n, Cells(w', null)[n]) {
        RenamedCell(c, t, elm, n);
      }
    }

    /** The assignments: copy the links and the colour, and let the neighbours know. */
    method TakeOver(gone: Node, elm: Node, par: Node?, left: Node, right: Node?)
      requires elm != gone && par == gone.parent && left == gone.left && right == gone.right
      requires left != elm && left != gone && right != elm && right != gone && par != elm && par != gone
      requires left != right && left != par && (right != null ==> right != par)
      modifies this`root, elm, left, if par == null then {} else {par}, if right == null then {} else {right}
      ensures Holds(elm, old(Cell(left, right, par, gone.red)))
      ensures Holds(left, old(Cell(left.left, left.right, elm, left.red)))
      ensures right != null ==> Holds(right, old(Cell(right.left, right.right, elm, right.red)))
      ensures root == if par == null then elm else old(root)
      ensures par != null && old(par.left) == gone ==> Holds(par, old(Cell(elm, par.right, par.parent, par.red)))
      ensures par != null && old(par.left) != gone ==> Holds(par, old(Cell(par.left, elm, par.parent, par.red)))
    {
      elm.left, elm.right, elm.parent, elm.red := gone.left, gone.right, gone.parent, gone.red;
      Rehang(gone.parent, gone, elm);
      gone.left.parent := elm;
      if gone.right != null {
        gone.right.parent := elm;
      }
    }

    lemma ReplacePlaces(c: Ctx, t: Tree, elm: Node)
      requires Is(Plug(c, t)) && t.T? && t.l.T? && elm !in nodes
      ensures Ptr(Plug(c, t.(n := elm))) == (if c.Top? then elm else root)
      ensures Holds(t.n, Cell(t.l.n, Ptr(t.r), ParentOf(c), t.red)) && t.n in nodes
      ensures t.l.n in nodes && t.l.n != t.n && Ptr(t.r) != t.l.n
      ensures t.r.T? ==> t.r.n in nodes && t.r.n != t.n
      ensures !c.Top? ==> c.n in nodes && c.n != t.n && c.n != t.l.n && c.n != Ptr(t.r)
      ensures (c.InL? ==> c.n.left == t.n) && (c.InR? ==> c.n.left != t.n && c.n.right == t.n)
    {
      hide Is;
      hide Cells;
      IsRoot(Plug(c, t));
      PlugNodes(c, t);
      Look(c, t);
      if !c.Top? {
        LookUp(c, t);
        RootOfPlug(c, t, t.(n := elm));
      }
    }

    /** Take out a node with at most one child. */
    method UnlinkOne(elm: Node, ghost c: Ctx, ghost t: Tree) returns (child: Node?, parent: Node?, red: bool)
      requires Is(Plug(c, t)) && t.T? && elm == t.n && (elm.left == null || elm.right == null)
      modifies this`root, this`nodes, nodes - {elm}
      ensures (t.l.Nil? || t.r.Nil?) && Is(Plug(c, OnlyChild(t))) && nodes == old(nodes) - {elm}
      ensures child == Ptr(OnlyChild(t)) && parent == ParentOf(c) && red == t.red
    {
      hide Is;
      hide Plug;
      Look(c, t);
      if elm.left == null {
        child := elm.right;
      } else {
        child := elm.left;
      }
      parent, red := elm.parent, elm.red;
      Splice(elm, child, parent, c, t);
    }

    /** The successor of a node with two children: the least node on its right. */
    method Successor(gone: Node, ghost c: Ctx, ghost t: Tree) returns (elm: Node, ghost inner: Ctx, ghost m: Tree)
      requires Is(Plug(c, t)) && t.T? && gone == t.n && t.r.T?
      ensures m.T? && m.n == elm && m.l.Nil? && OnlyLeft(inner) && Plug(inner, m) == t.r
      ensures var c1 := Over(inner, InR(c, t.n, t.red, t.l));
        && Plug(c1, m) == Plug(c, t)
        && elm.left == null && elm.right == Ptr(m.r) && elm.parent == ParentOf(c1) && elm.red == m.red
    {
      hide Is;
      hide Plug;
      Look(c, t);
      ghost var base := InR(c, t.n, t.red, t.l);
      UpOne(c, t.l, t.n, t.red, t.r);
      elm := gone.right;
      inner, m := Top, t.r;
      AtTop(m, 0);
      OverPlug(inner, base, m);
      Look(Over(inner, base), m);
      while elm.left != null
        invariant m.T? && elm == m.n && elm.left == Ptr(m.l) && Plug(inner, m) == t.r && OnlyLeft(inner)
        invariant Plug(Over(inner, base), m) == Plug(c, t)
        decreases m
      {
        elm := elm.left;
        UpOne(inner, m.l, m.n, m.red, m.r);
        inner, m := InL(inner, m.n, m.red, m.r), m.l;
        OverPlug(inner, base, m);
        Look(Over(inner, base), m);
      }
      Look(Over(inner, base), m);
    }

    /** Take out a node with two children: its successor is taken out and takes its place. */
    method UnlinkTwo(gone: Node, ghost c: Ctx, ghost t: Tree)
      returns (child: Node?, parent: Node?, red: bool, ghost inner: Ctx, ghost m: Tree)
      requires Is(Plug(c, t)) && t.T? && gone == t.n && t.l.T? && t.r.T?
      modifies this`root, this`nodes, nodes
      ensures m.T? && m.l.Nil? && OnlyLeft(inner) && Plug(inner, m) == t.r && red == m.red
      ensures var c' := Over(inner, InR(c, m.n, t.red, t.l));
        Is(Plug(c', m.r)) && child == Ptr(m.r) && parent == ParentOf(c')
      ensures nodes == old(nodes) - {gone}
    {
      hide Is;
      hide Plug;
      var elm;
      elm, inner, m := Successor(gone, c, t);
      ghost var base := InR(c, t.n, t.red, t.l);
      OverPlug(inner, base, m.r);
      UpOne(c, t.l, t.n, t.red, Plug(inner, m.r));
      OverParent(inner, base);
      InnerNode(c, t, inner, m);
      child, parent, red := elm.right, elm.parent, elm.red;
      Splice(elm, child, parent, Over(inner, base), m);
      if elm.parent == gone {
        parent := elm;
      }
      Replace(gone, elm, c, T(t.l, t.n, t.red, Plug(inner, m.r)));
      OverPlug(inner, InR(c, m.n, t.red, t.l), m.r);
      OverParent(inner, InR(c, m.n, t.red, t.l));
      UpOne(c, t.l, m.n, t.red, Plug(inner, m.r));
    }

    lemma InnerNode(c: Ctx, t: Tree, inner: Ctx, m: Tree)
      requires Is(Plug(c, t)) && t.T? && Plug(inner, m) == t.r && m.T?
      ensures !inner.Top? ==> inner.n != t.n
      ensures m.n != t.n && t.n in nodes && m.n in nodes
    {
      hide Is;
      hide Plug;
      hide Cells;
      IsRoot(Plug(c, t));
      PlugNodes(c, t);
      PlugNodes(inner, m);
    }

    /** RB_REMOVE */
    method Remove(elm: Node) returns (r: Node)
      requires Valid() && elm in nodes
      modifies this, nodes
      ensures Valid() && r == elm && nodes == old(nodes) - {elm}
      ensures Removed(old(Elems(tree)), Elems(tree), elm)
    {
      hide Cells;
      hide Nodes;
      hide Proper;
      hide Plug;
      hide Elems;
      hide Sorted;
      hide RedBlack;
      hide Short;
      AtTop(tree, 0);
      ghost var c, t := Locate(Top, tree, elm);
      ghost var s := Elems(tree);
      Look(c, t);
      var child, parent, red;
      ghost var c', t';
      if elm.left == null || elm.right == null {
        SpliceElems(c, t);
        SpliceColours(c, t);
        child, parent, red := UnlinkOne(elm, c, t);
        c', t' := c, OnlyChild(t);
      } else {
        ghost var inner, m;
        child, parent, red, inner, m := UnlinkTwo(elm, c, t);
        c', t' := Over(inner, InR(c, m.n, t.red, t.l)), m.r;
        SuccessorDone(c, t, inner, m);
      }
      tree := Plug(c', t');
      if !red {
        tree := RemoveColor(parent, child, c', t');
      } else {
        RedGone(c', t');
      }
      RemovedSorted(s, Elems(tree), elm);
      r := elm;
    }

    // ---------- searching ----------

    /** RB_NFIND: the first node whose key is not below `key`. */
    method NFind(key: int) returns (res: Node?)
      requires Valid()
      ensures res == null <==> forall n :: n in nodes ==> n.key < key
      ensures res != null ==> res in nodes && key <= res.key && forall n :: n in nodes && key <= n.key ==> res.key <= n.key
    {
      hide Is;
      hide Plug;
      hide RedBlack;
      hide Elems;
      hide Sorted;
      hide Around;
      IsRoot(tree);
      ghost var c, t := Top, tree;
      AtTop(tree, key);
      var tmp := root;
      res := null;
      while tmp != null
        invariant Plug(c, t) == tree && tmp == Ptr(t) && Around(c, key) && res == First(After(c))
        decreases t
      {
        Look(c, t);
        UpOne(c, t.l, t.n, t.red, t.r);
        if key < tmp.key {
          GoLeft(c, t, key);
          res := tmp;
          c, t := InL(c, t.n, t.red, t.r), t.l;
          tmp := tmp.left;
        } else if key > tmp.key {
          GoRight(c, t, key);
          c, t := InR(c, t.n, t.red, t.l), t.r;
          tmp := tmp.right;
        } else {
          FoundKey(c, t);
          return tmp;
        }
      }
      FirstAbove(c, key);
    }

    /** RB_NEXT: the node that follows in the order. */
    method Next(elm0: Node) returns (elm: Node?)
      requires Valid() && elm0 in nodes
      ensures exists i :: 0 <= i < |Elems(tree)| && Elems(tree)[i] == elm0 && elm == First(Elems(tree)[i + 1..])
    {
      hide Is;
      hide Plug;
      hide RedBlack;
      hide Elems;
      hide Sorted;
      hide Over;
      IsRoot(tree);
      AtTop(tree, 0);
      ghost var c, t := Locate(Top, tree, elm0);
      Look(c, t);
      if elm0.right != null {
        ghost var inner, m;
        elm, inner, m := Successor(elm0, c, t);
        NextBelow(c, t, inner, m);
      } else {
        NextAbove(c, t);
        ghost var c', t' := c, t;
        elm := elm0;
        if !c'.Top? {
          LookUp(c', t');
        }
        if elm.parent != null && elm == elm.parent.left {
          elm := elm.parent;
        } else {
          while elm.parent != null && elm == elm.parent.right
            invariant Plug(c', t') == tree && t'.T? && elm == t'.n && First(After(c')) == First(After(c))
            invariant elm.parent == ParentOf(c')
            invariant !c'.Top? && elm == c'.n.right ==> c'.InR?
            invariant !c'.Top? && elm != c'.n.right ==> c'.InL?
            decreases Depth(c')
          {
            elm := elm.parent;
            SameTree(c', t', t');
            c', t' := c'.up, Above(c', t');
            Look(c', t');
            if !c'.Top? {
              LookUp(c', t');
            }
          }
          elm := elm.parent;
        }
      }
    }
  }

  function First(s: seq<Node>): Node? {
    if s == [] then null else s[0]
  }

  lemma FirstAbove(c: Ctx, key: int)
    requires Around(c, key) && Sorted(Elems(Plug(c, Nil)))
    ensures var w, r := Plug(c, Nil), First(After(c));
      && (r == null <==> forall n :: n in Nodes(w) ==> n.key < key)
      && (r != null ==> r in Nodes(w) && key <= r.key && forall n :: n in Nodes(w) && key <= n.key ==> r.key <= n.key)
  {
    var w, r, b, a := Plug(c, Nil), First(After(c)), Before(c), After(c);
    PlugElems(c, Nil);
    assert Elems(w) == b + a;
    if r != null {
      ElemsNodes(w, r);
      assert Elems(w)[|b|] == r;
    }
    forall n | n in Nodes(w) ensures n in b || n in a {
      ElemsNodes(w, n);
    }
    forall n | n in Nodes(w) && key <= n.key ensures r != null && r.key <= n.key {
      assert n in a;
      var i :| 0 <= i < |a| && a[i] == n;
      assert Elems(w)[|b| + i] == n;
    }
  }

  lemma FoundKey(c: Ctx, t: Tree)
    requires t.T?
    ensures t.n in Nodes(Plug(c, t))
  {
    PlugNodes(c, t);
  }

  /** After a node with a right child comes the least node below it on the right. */
  lemma NextBelow(c: Ctx, t: Tree, inner: Ctx, m: Tree)
    requires t.T? && m.T? && m.l.Nil? && OnlyLeft(inner) && Plug(inner, m) == t.r
    ensures var s := Elems(Plug(c, t)); exists i :: 0 <= i < |s| && s[i] == t.n && m.n == First(s[i + 1..])
  {
    PlugElems(c, t);
    LeastFirst(inner, m);
    NextAt(Before(c), Elems(t.l), t.n, Elems(t.r), After(c));
  }

  lemma LeastFirst(inner: Ctx, m: Tree)
    requires m.T? && m.l.Nil? && OnlyLeft(inner)
    ensures Elems(Plug(inner, m)) != [] && Elems(Plug(inner, m))[0] == m.n
  {
    PlugElems(inner, m);
    OnlyLeftBefore(inner);
  }

  lemma NextAt(b: seq<Node>, l: seq<Node>, n: Node, r: seq<Node>, a: seq<Node>)
    ensures var s := b + (l + [n] + r) + a;
      exists i :: 0 <= i < |s| && s[i] == n && First(r + a) == First(s[i + 1..])
  {
    var s, i := b + (l + [n] + r) + a, |b + l|;
    assert s == b + l + [n] + (r + a);
    assert s[i] == n && s[i + 1..] == r + a;
  }

  /** After a node without a right child comes the nearest one above it that it is left of. */
  lemma NextAbove(c: Ctx, t: Tree)
    requires t.T? && t.r.Nil?
    ensures var s := Elems(Plug(c, t)); exists i :: 0 <= i < |s| && s[i] == t.n && First(After(c)) == First(s[i + 1..])
  {
    PlugElems(c, t);
    NextAt(Before(c), Elems(t.l), t.n, [], After(c));
    assert [] + After(c) == After(c);
  }

  lemma OverParent(inner: Ctx, base: Ctx)
    ensures ParentOf(Over(inner, base)) == if inner.Top? then ParentOf(base) else inner.n
  {
  }

  /** The colours and the order after a node's successor has taken its place. */
  lemma SuccessorDone(c: Ctx, t: Tree, inner: Ctx, m: Tree)
    requires t.T? && OnlyLeft(inner) && m.T? && m.l.Nil? && t.r == Plug(inner, m) && RedBlack(Plug(c, t))
    ensures var c' := Over(inner, InR(c, m.n, t.red, t.l)); var t' := m.r;
      && Removed(Elems(Plug(c, t)), Elems(Plug(c', t')), t.n)
      && (if m.red then RB(t') && RBC(c', Blacks(t')) && !IsRed(t') && BlackRoot(c') && !c'.Top? else Short(c', t'))
  {
    hide Plug;
    hide RBC;
    hide RB;
    hide Blacks;
    hide BlackRoot;
    hide Elems;
    hide Over;
    var base, base' := InR(c, t.n, t.red, t.l), InR(c, m.n, t.red, t.l);
    UpOne(c, t.l, t.n, t.red, t.r);
    OverPlug(inner, base, m);
    SpliceColours(Over(inner, base), m);
    OverColours(inner, c, t.n, m.n, t.red, t.l, Blacks(m.r));
    OverColours(inner, c, t.n, m.n, t.red, t.l, Blacks(m.r) + 1);
    SuccessorElems(c, t, inner, m);
    OverPlug(inner, base', m.r);
    UpOne(c, t.l, m.n, t.red, Plug(inner, m.r));
  }

  /** Without a red node the tree is as red-black as before. */
  lemma RedGone(c: Ctx, t: Tree)
    requires RB(t) && RBC(c, Blacks(t)) && !IsRed(t) && BlackRoot(c) && !c.Top?
    ensures RedBlack(Plug(c, t))
  {
    PlugRB(c, t);
    PlugBlack(c, t);
  }

  /** The whole tree is never short of its sibling. */
  lemma WholeIsShort(w: Tree)
    requires RB(w)
    ensures Short(Top, w) && Plug(Top, w) == w
  {
  }

  lemma AtTop(w: Tree, k: int)
    ensures Around(Top, k) && Plug(Top, w) == w
  {
  }

  lemma NoKey(w: Tree, k: int)
    requires forall i :: 0 <= i < |Elems(w)| ==> Elems(w)[i].key != k
    ensures forall n :: n in Nodes(w) ==> n.key != k
  {
    forall n | n in Nodes(w) ensures n.key != k {
      ElemsNodes(w, n);
    }
  }

  lemma InHole(c: Ctx, t: Tree, n: Node)
    ensures n in Nodes(Plug(c, Nil)) ==> n in NodesC(c)
  {
    PlugNodes(c, Nil);
  }

  /** A red node in a hole of a red-black tree. */
  lemma ReadyForRed(c: Ctx, n: Node)
    requires RedBlack(Plug(c, Nil))
    ensures RedFocus(c, T(Nil, n, true, Nil))
  {
    OpenRB(c, Nil);
    OpenBlack(c, Nil);
  }
}
