/** The splay tree macros of libuv-dll/include/tree.h, on nodes linked by pointers. */
module SplayTree {
  import opened SplaySpec
  import opened Seqs

  ghost predicate Holds(n: Node, o: Cell)
    reads n
  {
    n.left == o.left && n.right == o.right
  }

  class SplayHead {
    var root: Node?
    ghost var tree: Tree
    ghost var nodes: set<Node>

    /** The linked nodes form the tree `w`. */
    ghost predicate Is(w: Tree)
      reads this`root, this`nodes, nodes
    {
      && root == Ptr(w) && Proper(w) && nodes == Nodes(w)
      && (forall n: Node {:trigger n in nodes} :: n in nodes ==> Holds(n, Cells(w)[n]))
    }

    /** The nodes are in three trees: `t` at the root, a left tree whose right end is `left`, and a right
        tree whose left end is `right`; the header points to both. */
    ghost predicate Split(header: Node, left: Node, right: Node, lc: Spine, t: Tree, rc: Spine)
      reads this`root, this`nodes, nodes, header
    {
      && ProperSplit(lc, t, rc) && nodes == NodesSplit(lc, t, rc) && header !in nodes
      && root == Ptr(t) && left == Inner(lc, header) && right == Inner(rc, header)
      && (lc.Link? ==> left in nodes) && (rc.Link? ==> right in nodes)
      && header.right == Outer(lc, left.right) && header.left == Outer(rc, right.left)
      && (forall n: Node {:trigger n in nodes} :: n in nodes ==> Holds(n, CellAt(lc, t, rc, left.right, right.left, n)))
    }

    lemma Places(header: Node, left: Node, right: Node, lc: Spine, t: Tree, rc: Spine)
      requires Split(header, left, right, lc, t, rc) && t.T?
      ensures root == t.n && t.n in nodes && t.n.left == Ptr(t.l) && t.n.right == Ptr(t.r)
      ensures t.n != header && t.n != left && t.n != right && (left == right ==> left == header)
      ensures t.l.T? ==> t.l.n in nodes && t.l.n.left == Ptr(t.l.l) && t.l.n.right == Ptr(t.l.r)
      ensures t.l.T? ==> t.l.n != header && t.l.n != left && t.l.n != right && t.l.n != t.n
      ensures t.r.T? ==> t.r.n in nodes && t.r.n.left == Ptr(t.r.l) && t.r.n.right == Ptr(t.r.r)
      ensures t.r.T? ==> t.r.n != header && t.r.n != left && t.r.n != right && t.r.n != t.n
    {
      hide Cells;
      hide CellsL;
      hide CellsR;
      SubCell(t, t.n);
      if t.l.T? {
        SubCell(t, t.l.n);
        SubCell(t.l, t.l.n);
      }
      if t.r.T? {
        SubCell(t, t.r.n);
        SubCell(t.r, t.r.n);
      }
    }

    /** SPLAY_LINKLEFT */
    method LinkLeft(header: Node, left: Node, tmp0: Node, ghost lc: Spine, ghost t: Tree, ghost rc: Spine) returns (tmp: Node)
      requires Split(header, left, tmp0, lc, t, rc) && t.T?
      modifies this`root, header, nodes
      ensures Split(header, left, tmp, lc, t.l, Link(rc, t.n, t.r))
    {
      hide CellAt;
      hide Nodes;
      hide NodesS;
      hide NodesSplit;
      hide ProperSplit;
      Places(header, left, tmp0, lc, t, rc);
      LinkLeftNodes(lc, t, rc);
      ghost var lh, rh := left.right, tmp0.left;
      tmp0.left := root;
      tmp := root;
      root := root.left;
      forall n: Node | n in nodes ensures Holds(n, CellAt(lc, t.l, Link(rc, t.n, t.r), lh, Ptr(t.l), n)) {
        LinkLeftCell(lc, t, rc, lh, rh, n);
      }
      assert header.left == Outer(Link(rc, t.n, t.r), tmp.left);
      assert left.right == lh && tmp.left == Ptr(t.l);
    }

    /** SPLAY_LINKRIGHT */
    method LinkRight(header: Node, tmp0: Node, right: Node, ghost lc: Spine, ghost t: Tree, ghost rc: Spine) returns (tmp: Node)
      requires Split(header, tmp0, right, lc, t, rc) && t.T?
      modifies this`root, header, nodes
      ensures Split(header, tmp, right, Link(lc, t.n, t.l), t.r, rc)
    {
      hide CellAt;
      hide Nodes;
      hide NodesS;
      hide NodesSplit;
      hide ProperSplit;
      Places(header, tmp0, right, lc, t, rc);
      LinkRightNodes(lc, t, rc);
      ghost var lh, rh := tmp0.right, right.left;
      tmp0.right := root;
      tmp := root;
      root := root.right;
      forall n: Node | n in nodes ensures Holds(n, CellAt(Link(lc, t.n, t.l), t.r, rc, Ptr(t.r), rh, n)) {
        LinkRightCell(lc, t, rc, lh, rh, n);
      }
      assert header.right == Outer(Link(lc, t.n, t.l), tmp.right);
      assert right.left == rh && tmp.right == Ptr(t.r);
    }

    /** SPLAY_ROTATE_RIGHT */
    method RotateRight(tmp: Node, ghost header: Node, ghost left: Node, ghost right: Node, ghost lc: Spine, ghost t: Tree, ghost rc: Spine)
      requires Split(header, left, right, lc, t, rc) && t.T? && tmp == Ptr(t.l)
      modifies this`root, nodes
      ensures Split(header, left, right, lc, RotateR(t), rc)
    {
      hide Cells;
      hide CellsL;
      hide CellsR;
      hide Nodes;
      hide NodesS;
      hide NodesSplit;
      hide ProperSplit;
      Places(header, left, right, lc, t, rc);
      RotateRSplit(lc, t, rc);
      ghost var lh, rh := left.right, right.left;
      root.left := tmp.right;
      tmp.right := root;
      root := tmp;
      forall n: Node | n in nodes ensures Holds(n, CellAt(lc, RotateR(t), rc, lh, rh, n)) {
        RotateRCellAt(lc, t, rc, lh, rh, n);
      }
    }

    /** SPLAY_ROTATE_LEFT */
    method RotateLeft(tmp: Node, ghost header: Node, ghost left: Node, ghost right: Node, ghost lc: Spine, ghost t: Tree, ghost rc: Spine)
      requires Split(header, left, right, lc, t, rc) && t.T? && tmp == Ptr(t.r)
      modifies this`root, nodes
      ensures Split(header, left, right, lc, RotateL(t), rc)
    {
      hide Cells;
      hide CellsL;
      hide CellsR;
      hide Nodes;
      hide NodesS;
      hide NodesSplit;
      hide ProperSplit;
      Places(header, left, right, lc, t, rc);
      RotateLSplit(lc, t, rc);
      ghost var lh, rh := left.right, right.left;
      root.right := tmp.left;
      tmp.left := root;
      root := tmp;
      forall n: Node | n in nodes ensures Holds(n, CellAt(lc, RotateL(t), rc, lh, rh, n)) {
        RotateLCellAt(lc, t, rc, lh, rh, n);
      }
    }

    /** SPLAY_ASSEMBLE */
    method Assemble(header: Node, left: Node, right: Node, ghost lc: Spine, ghost t: Tree, ghost rc: Spine)
      requires Split(header, left, right, lc, t, rc) && t.T?
      modifies header, nodes
      ensures Is(Assembled(lc, t, rc))
    {
      hide CellAt;
      hide Nodes;
      hide NodesS;
      hide NodesSplit;
      hide ProperSplit;
      hide PlugL;
      hide PlugR;
      Places(header, left, right, lc, t, rc);
      AssembleNodes(lc, t, rc);
      ghost var lh, rh := left.right, right.left;
      left.right := root.left;
      right.left := root.right;
      root.left := header.right;
      root.right := header.left;
      forall n: Node | n in nodes ensures Holds(n, Cells(Assembled(lc, t, rc))[n]) {
        AssembleCell(lc, t, rc, lh, rh, n);
      }
    }

    /** The main splay operation. */
    method Splay(key: int, ghost w: Tree) returns (ghost w': Tree)
      requires Is(w) && w.T? && Sorted(Elems(w))
      modifies this`root, nodes
      ensures Is(w') && Elems(w') == Elems(w) && Splayed(w', key)
    {
      hide ProperSplit;
      hide NodesSplit;
      hide CellAt;
      hide Cells;
      hide Sorted;
      hide All;
      hide Parted;
      hide Splayed;
      hide Outer;
      hide Inner;
      var header := new Node(0);
      var left, right := header, header;
      ghost var lc, t, rc := End, w, End;
      Whole(header, w, key);
      while key != root.key
        invariant fresh(header) && nodes == old(nodes)
        invariant Split(header, left, right, lc, t, rc) && t.T?
        invariant Parted(lc, rc, key) && All(lc, t, rc) == Elems(w) && t.n == root
        decreases t
      {
        Places(header, left, right, lc, t, rc);
        if key < root.key {
          var tmp := root.left;
          if tmp == null {
            break;
          }
          if key < tmp.key {
            RotateElems(lc, t, rc);
            RotateRight(tmp, header, left, right, lc, t, rc);
            t := RotateR(t);
            Places(header, left, right, lc, t, rc);
            if root.left == null {
              break;
            }
          }
          PartLeft(lc, t, rc, key);
          LinkElems(lc, t, rc);
          right := LinkLeft(header, left, right, lc, t, rc);
          t, rc := t.l, Link(rc, t.n, t.r);
        } else if key > root.key {
          var tmp := root.right;
          if tmp == null {
            break;
          }
          if key > tmp.key {
            RotateElems(lc, t, rc);
            RotateLeft(tmp, header, left, right, lc, t, rc);
            t := RotateL(t);
            Places(header, left, right, lc, t, rc);
            if root.right == null {
              break;
            }
          }
          PartRight(lc, t, rc, key);
          LinkElems(lc, t, rc);
          left := LinkRight(header, left, right, lc, t, rc);
          t, lc := t.r, Link(lc, t.n, t.l);
        }
      }
      SplayDone(lc, t, rc, key);
      AssembledElems(lc, t, rc);
      Assemble(header, left, right, lc, t, rc);
      w' := Assembled(lc, t, rc);
    }

    lemma Whole(header: Node, w: Tree, key: int)
      requires Is(w) && header !in nodes && header.left == null && header.right == null && w.T?
      ensures Split(header, header, header, End, w, End) && Parted(End, End, key) && All(End, w, End) == Elems(w)
      ensures root == w.n
    {
    }

    /** SPLAY_MINMAX: bring up the first or the last node. */
    method SplayMinMax(comp: int, ghost w: Tree) returns (ghost w': Tree)
      requires Is(w) && w.T? && comp != 0
      modifies this`root, nodes
      ensures Is(w') && Elems(w') == Elems(w) && w'.T?
      ensures if comp < 0 then w'.l.Nil? else w'.r.Nil?
    {
      hide ProperSplit;
      hide NodesSplit;
      hide CellAt;
      hide Cells;
      hide All;
      hide Outer;
      hide Inner;
      var header := new Node(0);
      var left, right := header, header;
      ghost var lc, t, rc := End, w, End;
      Whole(header, w, 0);
      while true
        invariant fresh(header) && nodes == old(nodes)
        invariant Split(header, left, right, lc, t, rc) && t.T?
        invariant if comp < 0 then lc == End else rc == End
        invariant All(lc, t, rc) == Elems(w)
        decreases t
      {
        Places(header, left, right, lc, t, rc);
        if comp < 0 {
          var tmp := root.left;
          if tmp == null {
            break;
          }
          RotateElems(lc, t, rc);
          RotateRight(tmp, header, left, right, lc, t, rc);
          t := RotateR(t);
          Places(header, left, right, lc, t, rc);
          if root.left == null {
            break;
          }
          LinkElems(lc, t, rc);
          right := LinkLeft(header, left, right, lc, t, rc);
          t, rc := t.l, Link(rc, t.n, t.r);
        } else {
          var tmp := root.right;
          if tmp == null {
            break;
          }
          RotateElems(lc, t, rc);
          RotateLeft(tmp, header, left, right, lc, t, rc);
          t := RotateL(t);
          Places(header, left, right, lc, t, rc);
          if root.right == null {
            break;
          }
          LinkElems(lc, t, rc);
          left := LinkRight(header, left, right, lc, t, rc);
          t, lc := t.r, Link(lc, t.n, t.l);
        }
      }
      AssembledElems(lc, t, rc);
      Assemble(header, left, right, lc, t, rc);
      w' := Assembled(lc, t, rc);
    }

    ghost predicate Valid()
      reads this, nodes
    {
      Is(tree) && Sorted(Elems(tree))
    }

    /** SPLAY_INIT */
    constructor ()
      ensures Valid() && nodes == {} && tree == Nil
    {
      root, tree, nodes := null, Nil, {};
    }

    /** SPLAY_INSERT: the node with the same key if there is one, and otherwise null. */
    method Insert(elm: Node) returns (r: Node?)
      requires Valid()
      modifies this, nodes, elm
      ensures Valid()
      ensures r == null <==> forall i :: 0 <= i < |old(Elems(tree))| ==> old(Elems(tree))[i].key != elm.key
      ensures r == null ==> nodes == old(nodes) + {elm} && Inserted(old(Elems(tree)), Elems(tree), elm) && root == elm
      ensures r != null ==> r == root && r.key == elm.key && nodes == old(nodes) && Elems(tree) == old(Elems(tree))
    {
      hide Nodes;
      hide Cells;
      hide Proper;
      hide Splayed;
      hide Sorted;
      if root == null {
        elm.left, elm.right := null, null;
        tree := T(Nil, elm, Nil);
        nodes := {elm};
        root := elm;
        Alone(elm);
        r := null;
      } else {
        ghost var w := tree;
        tree := Splay(elm.key, tree);
        RootKey(tree, elm.key);
        IsTree(tree);
        if elm.key != root.key {
          ElemsNodes(tree, elm);
          NewRootElems(tree, elm);
          PutAtRoot(elm, tree);
          tree := NewRoot(tree, elm);
          r := null;
        } else {
          r := root;
        }
      }
    }

    lemma IsTree(w: Tree)
      requires Is(w)
      ensures root == Ptr(w) && Proper(w) && nodes == Nodes(w)
      ensures w.T? ==> w.n in nodes && w.n.left == Ptr(w.l) && w.n.right == Ptr(w.r)
    {
      if w.T? {
        SubCell(w, w.n);
      }
    }

    /** Make `elm` the root, and the old root its child. */
    method PutAtRoot(elm: Node, ghost w: Tree)
      requires Is(w) && w.T? && elm !in nodes && elm.key != w.n.key
      modifies this`root, this`nodes, nodes, elm
      ensures Is(NewRoot(w, elm)) && nodes == old(nodes) + {elm} && root == elm
    {
      hide Cells;
      hide Nodes;
      hide Proper;
      IsTree(w);
      NewRootCells(w, elm);
      if elm.key < root.key {
        elm.left := root.left;
        elm.right := root;
        root.left := null;
      } else {
        elm.right := root.right;
        elm.left := root;
        root.right := null;
      }
      root := elm;
      nodes := nodes + {elm};
      forall n: Node | n in nodes ensures Holds(n, Cells(NewRoot(w, elm))[n]) {
        NewRootCell(w, elm, n);
      }
    }

    /** SPLAY_REMOVE: take out the node with the key, if there is one; the result says whether. */
    method Remove(elm: Node) returns (r: Node?)
      requires Valid()
      modifies this, nodes
      ensures Valid() && (r == null || r == elm)
      ensures r == null <==> forall i :: 0 <= i < |old(Elems(tree))| ==> old(Elems(tree))[i].key != elm.key
      ensures r == null ==> Elems(tree) == old(Elems(tree)) && nodes == old(nodes)
      ensures r != null ==> exists n :: n in old(nodes) && n.key == elm.key && Removed(old(Elems(tree)), Elems(tree), n) && nodes == old(nodes) - {n}
    {
      hide Cells;
      hide Proper;
      hide Splayed;
      hide Sorted;
      hide Removed;
      if root == null {
        return null;
      }
      ghost var s := Elems(tree);
      tree := Splay(elm.key, tree);
      RootKey(tree, elm.key);
      IsTree(tree);
      if elm.key == root.key {
        ghost var n: Node := tree.n;
        RemoveRoot(elm.key);
        r := elm;
      } else {
        r := null;
      }
    }

    /** Take out the root: the last node on the left comes up in its place. */
    method RemoveRoot(key: int)
      requires Valid() && tree.T? && tree.n == root && root.key == key
      modifies this, nodes
      ensures Valid() && Removed(old(Elems(tree)), Elems(tree), old(tree).n) && nodes == old(nodes) - {old(tree).n}
    {
      hide Cells;
      hide Nodes;
      hide Proper;
      hide Sorted;
      hide Removed;
      hide Elems;
      ghost var w := tree;
      IsTree(w);
      if root.left == null {
        tree := RaiseRight(w);
      } else {
        tree := JoinTrees(key, w);
      }
      RemovedSorted(Elems(w), Elems(tree), w.n);
    }

    /** The right subtree is all that is left. */
    method RaiseRight(ghost w: Tree) returns (ghost w': Tree)
      requires Is(w) && w.T? && w.l.Nil? && root == w.n
      modifies this`root, this`nodes
      ensures Is(w') && Removed(Elems(w), Elems(w'), w.n) && nodes == old(nodes) - {w.n}
    {
      hide Cells;
      IsTree(w);
      SubTrees(w);
      RootRemoved(w, []);
      assert [] + Elems(w.r) == Elems(w.r);
      root := root.right;
      nodes := Nodes(w.r);
      w' := w.r;
    }

    /** Splay the left subtree, and hang the right one on it. */
    method JoinTrees(key: int, ghost w: Tree) returns (ghost w': Tree)
      requires Is(w) && w.T? && w.l.T? && root == w.n && Sorted(Elems(w)) && w.n.key == key
      modifies this`root, this`nodes, nodes
      ensures Is(w') && Removed(Elems(w), Elems(w'), w.n) && nodes == old(nodes) - {w.n}
    {
      hide Cells;
      hide Sorted;
      hide Removed;
      IsTree(w);
      LeftBelow(w);
      SubTrees(w);
      var tmp := root.right;
      root := root.left;
      nodes := Nodes(w.l);
      ghost var l := Splay(key, w.l);
      LastUp(l, key);
      IsTree(l);
      JoinRight(tmp, l, w.r);
      w' := T(l.l, l.n, w.r);
      RootRemoved(w, Elems(w.l));
    }

    /** The nodes of the subtrees hold what they should in the subtrees. */
    lemma SubTrees(w: Tree)
      requires Is(w) && w.T?
      ensures forall n: Node {:trigger Cells(w.l)[n]} :: n in Nodes(w.l) ==> n in nodes && Holds(n, Cells(w.l)[n])
      ensures forall n: Node {:trigger Cells(w.r)[n]} :: n in Nodes(w.r) ==> n in nodes && Holds(n, Cells(w.r)[n])
      ensures Nodes(w.l) == nodes - {w.n} - Nodes(w.r) && Proper(w.l) && Proper(w.r)
    {
    }

    /** Hang the tree `r` on the right of the root. */
    method JoinRight(tmp: Node?, ghost l: Tree, ghost r: Tree)
      requires Is(l) && l.T? && l.r.Nil? && Proper(r) && nodes !! Nodes(r) && tmp == Ptr(r)
      requires forall n: Node {:trigger Cells(r)[n]} :: n in Nodes(r) ==> Holds(n, Cells(r)[n])
      modifies this`nodes, nodes
      ensures Is(T(l.l, l.n, r)) && nodes == old(nodes) + Nodes(r)
    {
      hide Cells;
      IsTree(l);
      root.right := tmp;
      ghost var w := T(l.l, l.n, r);
      nodes := nodes + Nodes(r);
      forall n: Node | n in nodes ensures Holds(n, Cells(w)[n]) {
        SubCell(w, n);
        if n in Nodes(l) {
          SubCell(l, n);
        }
      }
    }
  }

  lemma Alone(n: Node)
    ensures var w := T(Nil, n, Nil);
      Proper(w) && Nodes(w) == {n} && Cells(w)[n] == Cell(null, null) && Elems(w) == [n] && Sorted(Elems(w)) && Inserted([], Elems(w), n)
  {
    assert [n] == [][..0] + [n] + [][0..];
  }

  /** Whether the root has the key says whether the tree has it. */
  lemma RootKey(w: Tree, k: int)
    requires Splayed(w, k) && Sorted(Elems(w))
    ensures w.T? && (w.n.key == k <==> exists i :: 0 <= i < |Elems(w)| && Elems(w)[i].key == k)
  {
    assert Elems(w)[|Elems(w.l)|] == w.n;
    forall i | 0 <= i < |Elems(w)| && Elems(w)[i].key == k ensures w.n.key == k {
      SplayedFinds(w, k, i);
    }
  }
}
