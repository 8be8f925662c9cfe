/** The binary min heap of libuv-dll/src/heap-inl.h, on nodes linked by pointers. */
module Heap {
  import opened Bits
  import opened HeapSpec

  ghost predicate Holds(n: Node, o: Cell)
    reads n
  {
    n.left == o.left && n.right == o.right && n.parent == o.parent
  }

  /** A place where a pointer to a node is stored. */
  datatype Slot = Min | LeftOf(n: Node) | RightOf(n: Node)

  /** The place of the pointer to position `i`. */
  function SlotOf(s: seq<Node>, i: nat): Slot
    requires 1 <= i <= |s| + 1
  {
    if i == 1 then Min
    else if i % 2 == 0 then LeftOf(s[i / 2 - 1])
    else RightOf(s[i / 2 - 1])
  }

  /** One step down the path of the bits of a position. */
  lemma PathStep(n: nat, k: nat)
    requires k > 0
    ensures Drop(n, k - 1) == 2 * Drop(n, k) + Code(n, k) % 2 <= n && Code(n, k - 1) == Code(n, k) / 2
  {
    hide Code;
    hide Drop;
    CodeSnoc(n, k - 1);
    DropStep(n, k - 1);
    DropAtMost(n, k - 1);
  }

  class MinHeap {
    var min: Node?
    var nelts: nat
    ghost var elems: seq<Node>
    ghost var nodes: set<Node>

    /** The nodes are linked as a complete tree. */
    ghost predicate Linked()
      reads this`min, this`elems, this`nodes, nodes
    {
      && Distinct(elems) && nodes == Members(elems) && min == At(elems, 1)
      && (forall i {:trigger CellOf(elems, i)} :: 1 <= i <= |elems| ==> Holds(elems[i - 1], CellOf(elems, i)))
    }

    /** The assignments of heap_node_swap. */
    method Relink(parent: Node, child: Node, sibling: Node?, cl: Node?, cr: Node?, top: Node?)
      requires parent != child && child.left == cl && child.right == cr && child.parent == parent && parent.parent == top
      requires (parent.left == child && parent.right == sibling) || (parent.right == child && parent.left == sibling && sibling != child)
      requires cl != parent && cl != child && cr != parent && cr != child && (cl != null ==> cl != cr)
      requires sibling != parent && sibling != child && (sibling != null ==> sibling != cl && sibling != cr)
      requires top != parent && top != child && (top != null ==> top != cl && top != cr && top != sibling)
      modifies this`min, parent, child
      modifies if sibling == null then {} else {sibling}, if cl == null then {} else {cl}
      modifies if cr == null then {} else {cr}, if top == null then {} else {top}
      ensures Holds(parent, Cell(cl, cr, child))
      ensures Holds(child, old(if parent.left == child then Cell(parent, sibling, top) else Cell(sibling, parent, top)))
      ensures sibling != null ==> Holds(sibling, old(Cell(sibling.left, sibling.right, child)))
      ensures cl != null ==> Holds(cl, old(Cell(cl.left, cl.right, parent)))
      ensures cr != null ==> Holds(cr, old(Cell(cr.left, cr.right, parent)))
      ensures min == if top == null then child else old(min)
      ensures top != null && old(top.left) == parent ==> Holds(top, old(Cell(child, top.right, top.parent)))
      ensures top != null && old(top.left) != parent ==> Holds(top, old(Cell(top.left, child, top.parent)))
    {
      var beside := Trade(parent, child);
      SetParent(beside, child);
      SetParent(parent.left, parent);
      SetParent(parent.right, parent);
      Rehang(child.parent, parent, child);
    }

    /** Exchange what the two hold; the child, which then holds itself, gets the parent in that place. */
    static method Trade(parent: Node, child: Node) returns (sibling: Node?)
      requires parent != child && (parent.left == child || parent.right == child)
      modifies parent, child
      ensures Holds(parent, old(Cell(child.left, child.right, child)))
      ensures old(parent.left) == child ==> Holds(child, old(Cell(parent, parent.right, parent.parent))) && sibling == old(parent.right)
      ensures old(parent.left) != child ==> Holds(child, old(Cell(parent.left, parent, parent.parent))) && sibling == old(parent.left)
    {
      var t := (parent.left, parent.right, parent.parent);
      parent.left, parent.right, parent.parent := child.left, child.right, child.parent;
      child.left, child.right, child.parent := t.0, t.1, t.2;

      parent.parent := child;
      if child.left == child {
        child.left := parent;
        sibling := child.right;
      } else {
        child.right := parent;
        sibling := child.left;
      }
    }

    static method SetParent(n: Node?, p: Node?)
      modifies if n == null then {} else {n}
      ensures n != null ==> Holds(n, old(Cell(n.left, n.right, p)))
    {
      if n != null {
        n.parent := p;
      }
    }

    /** Hang `to` where `from` hangs, below `par` or at the top. */
    method Rehang(par: Node?, from: Node, to: Node)
      modifies this`min, if par == null then {} else {par}
      ensures min == if par == null then to else old(min)
      ensures par != null && old(par.left) == from ==> Holds(par, old(Cell(to, par.right, par.parent)))
      ensures par != null && old(par.left) != from ==> Holds(par, old(Cell(par.left, to, par.parent)))
    {
      if par == null {
        min := to;
      } else if par.left == from {
        par.left := to;
      } else {
        par.right := to;
      }
    }

    /** heap_node_swap: the node at `p` and its child at `c` change places. */
    method Swap(parent: Node, child: Node, ghost p: nat, ghost c: nat)
      requires Linked() && 1 <= p && c / 2 == p && c <= |elems| && parent == elems[p - 1] && child == elems[c - 1]
      modifies this`min, this`elems, nodes
      ensures Linked() && elems == Swapped(old(elems), p, c)
    {
      hide Distinct;
      hide Beside;
      ghost var s := elems;
      SwapMembers(s, p, c);
      SwapPlaces(p, c);
      Relink(parent, child, if parent.left == child then parent.right else parent.left, child.left, child.right, parent.parent);
      elems := Swapped(s, p, c);
      forall i {:trigger CellOf(elems, i)} | 1 <= i <= |elems| ensures Holds(elems[i - 1], CellOf(elems, i)) {
        NewCell(s, p, c, i);
      }
    }

    /** All is well between two operations. */
    ghost predicate Valid()
      reads this, nodes
    {
      Linked() && nelts == |elems| && Ordered(elems)
    }

    /** heap_init */
    constructor ()
      ensures Valid() && elems == []
    {
      min, nelts, elems, nodes := null, 0, [], {};
    }

    /** The turns on the way down to position `n`, the first in the lowest bit. */
    static method PathTo(n0: nat) returns (path: nat, k: nat)
      requires n0 >= 1
      ensures path == Code(n0, k) && Drop(n0, k) == 1
    {
      path, k := 0, 0;
      var n := n0;
      while n >= 2
        invariant n >= 1 && n == Drop(n0, k) && path == Code(n0, k)
        decreases n
      {
        CodeSnoc(n0, k);
        DropStep(n0, k);
        path := 2 * path + n % 2;
        k, n := k + 1, n / 2;
      }
    }

    /** Where a pointer to a node is stored. */
    function Load(slot: Slot): Node?
      reads this`min, if slot.Min? then {} else {slot.n}
    {
      match slot
      case Min => min
      case LeftOf(n) => n.left
      case RightOf(n) => n.right
    }

    method Store(slot: Slot, n: Node?)
      modifies this`min, if slot.Min? then {} else {slot.n}
      ensures min == if slot.Min? then n else old(min)
      ensures !slot.Min? ==>
                Holds(slot.n, old(if slot.LeftOf? then Cell(n, slot.n.right, slot.n.parent) else Cell(slot.n.left, n, slot.n.parent)))
    {
      match slot
      case Min => min := n;
      case LeftOf(m) => m.left := n;
      case RightOf(m) => m.right := n;
    }

    /** What the slot of a position holds. */
    lemma LoadSlot(i: nat)
      requires Linked() && 1 <= i <= |elems| + 1
      ensures Load(SlotOf(elems, i)) == At(elems, i)
    {
      if i >= 2 {
        assert CellOf(elems, i / 2) == CellOf(elems, i / 2);
      }
    }

    /** Follow a path: the slot of position `n`, and that of its parent. */
    method Follow(path0: nat, k0: nat, ghost n: nat) returns (parent: Slot, child: Slot)
      requires Linked() && 1 <= n <= |elems| + 1 && path0 == Code(n, k0) && Drop(n, k0) == 1
      ensures child == SlotOf(elems, n) && parent == (if n == 1 then Slot.Min else SlotOf(elems, n / 2))
    {
      hide Code;
      hide Drop;
      hide Pow2;
      DropNothing(n);
      parent, child := Min, Min;
      var path, k := path0, k0;
      ghost var i := 1;
      while k > 0
        invariant 1 <= i <= n && i == Drop(n, k) && path == Code(n, k)
        invariant child == SlotOf(elems, i) && parent == (if i == 1 then Slot.Min else SlotOf(elems, i / 2))
      {
        PathStep(n, k);
        LoadSlot(i);
        parent := child;
        if path % 2 == 1 {
          child := RightOf(Load(child));
          i := 2 * i + 1;
        } else {
          child := LeftOf(Load(child));
          i := 2 * i;
        }
        path, k := path / 2, k - 1;
      }
    }

    /** The nodes that an exchange touches are different. */
    lemma SwapPlaces(p: nat, c: nat)
      requires Linked() && 1 <= p && c / 2 == p && c <= |elems|
      ensures var s, a, b := elems, elems[p - 1], elems[c - 1];
        && Holds(a, CellOf(s, p)) && Holds(b, CellOf(s, c)) && b.parent == a
        && (if c == 2 * p then a.left == b && a.right == At(s, Beside(c)) else a.right == b && a.left == At(s, Beside(c)))
        && Apart(s, p, c)
    {
      Different(elems, p, c);
      assert CellOf(elems, p) == CellOf(elems, p) && CellOf(elems, c) == CellOf(elems, c);
    }

    /** What the node at a position holds. */
    lemma LookAt(i: nat)
      requires Linked() && 1 <= i <= |elems|
      ensures Holds(elems[i - 1], CellOf(elems, i)) && Distinct(elems) && nodes == Members(elems)
    {
    }

    /** Walk up the tree while the node is less than its parent. */
    method SiftUp(node: Node, ghost p0: nat)
      requires Linked() && OrderedUp(elems, p0) && elems[p0 - 1] == node
      modifies this`min, this`elems, nodes
      ensures Linked() && Ordered(elems) && |elems| == |old(elems)|
    {
      hide Linked;
      hide Distinct;
      hide Swapped;
      hide OrderedUp;
      hide Ordered;
      hide Members;
      ghost var p := p0;
      InRange(elems, p);
      LookAt(p);
      while node.parent != null && node.key < node.parent.key
        invariant Linked() && 1 <= p <= |elems| && OrderedUp(elems, p) && elems[p - 1] == node
        invariant node.parent == At(elems, p / 2) && |elems| == |old(elems)|
        decreases p
      {
        ghost var s := elems;
        LookAt(p);
        SwapUp(s, p);
        SwapAt(s, p / 2, p, p / 2);
        Swap(node.parent, node, p / 2, p);
        p := p / 2;
        LookAt(p);
      }
      UpDone(elems, p);
    }

    /** Walk down the subtree: swap with the smallest child as long as one is less. */
    method SiftDown(child: Node, ghost p0: nat) returns (ghost p: nat)
      requires Linked() && OrderedDown(elems, p0) && elems[p0 - 1] == child
      modifies this`min, this`elems, nodes
      ensures Linked() && OrderedUp(elems, p) && elems[p - 1] == child && |elems| == |old(elems)|
    {
      hide Linked;
      hide Distinct;
      hide Swapped;
      hide OrderedUp;
      hide OrderedDown;
      hide Members;
      p := p0;
      InRange(elems, p);
      while true
        invariant Linked() && 1 <= p <= |elems| && OrderedDown(elems, p) && elems[p - 1] == child && |elems| == |old(elems)|
        decreases |elems| - p
      {
        LookAt(p);
        var smallest := child;
        ghost var c := p;
        if child.left != null && child.left.key < smallest.key {
          smallest, c := child.left, 2 * p;
        }
        if child.right != null && child.right.key < smallest.key {
          smallest, c := child.right, 2 * p + 1;
        }
        if smallest == child {
          break;
        }
        SwapDown(elems, p, c);
        SwapAt(elems, p, c, c);
        Swap(child, smallest, p, c);
        p := c;
      }
      LookAt(p);
      DownDone(elems, p);
    }

    /** heap_insert */
    method Insert(newnode: Node)
      requires Valid() && newnode !in nodes
      modifies this, nodes, newnode
      ensures Valid() && nodes == old(nodes) + {newnode} && |elems| == |old(elems)| + 1
    {
      hide Distinct;
      hide Ordered;
      hide OrderedUp;
      hide Members;
      newnode.left, newnode.right, newnode.parent := null, null, null;
      ghost var s := elems;
      var path, k := PathTo(1 + nelts);
      var parent, child := Follow(path, k, 1 + nelts);
      Append(newnode, parent, child);
      nelts := nelts + 1;
      SiftUp(newnode, |s| + 1);
    }

    /** Hang a new node into the first free slot. */
    method Append(newnode: Node, parent: Slot, child: Slot)
      requires Linked() && Ordered(elems) && newnode !in nodes && newnode.left == null && newnode.right == null
      requires child == SlotOf(elems, |elems| + 1)
      requires parent == if elems == [] then Slot.Min else SlotOf(elems, (|elems| + 1) / 2)
      modifies this`min, this`elems, this`nodes, nodes, newnode
      ensures Linked() && elems == old(elems) + [newnode] && OrderedUp(elems, |elems|) && nodes == old(nodes) + {newnode}
    {
      hide CellOf;
      hide Key;
      hide Distinct;
      hide Ordered;
      hide OrderedUp;
      ghost var s := elems;
      AppendKeeps(s, newnode);
      AppendPlaces(newnode, parent);
      newnode.parent := Load(parent);
      Store(child, newnode);
      elems := elems + [newnode];
      nodes := nodes + {newnode};
      forall i {:trigger CellOf(elems, i)} | 1 <= i <= |elems| ensures Holds(elems[i - 1], CellOf(elems, i)) {
        AppendCell(s, newnode, i);
        OtherNode(s, i, |elems| / 2);
      }
    }

    /** heap_remove: take any member out. */
    method Remove(node: Node?)
      requires Valid() && (elems != [] ==> node in nodes)
      modifies this, nodes
      ensures Valid()
      ensures old(elems) == [] ==> elems == [] && nodes == old(nodes)
      ensures old(elems) != [] ==> nodes == old(nodes) - {node} && |elems| == |old(elems)| - 1
    {
      hide Distinct;
      hide Ordered;
      hide OrderedUp;
      hide OrderedDown;
      if nelts == 0 {
        return;
      }
      var path, k := PathTo(nelts);
      var parent, max := Follow(path, k, nelts);
      LoadSlot(nelts);
      LookAt(1);
      nelts := nelts - 1;
      var child: Node := Load(max);
      ghost var j :| 0 <= j < |elems| && elems[j] == node;
      ghost var s := elems;
      Unlink(max, child);
      if child == node {
        // the pointer to the last node is gone, so that it cannot be at the top any more
        assert child != min;
        return;
      }
      Replace(node, child, j + 1);
      ghost var p := SiftDown(child, j + 1);
      SiftUp(child, p);
    }

    /** Unlink the last node. */
    method Unlink(max: Slot, child: Node)
      requires Linked() && Ordered(elems) && elems != [] && max == SlotOf(elems, |elems|) && child == elems[|elems| - 1]
      modifies this`min, this`elems, this`nodes, nodes
      ensures Linked() && Ordered(elems) && child !in nodes && old(elems) == elems + [child] && nodes == old(nodes) - {child}
      ensures child != min
    {
      hide Distinct;
      hide Ordered;
      ghost var s := elems;
      DropKeeps(s);
      LookAt(1);
      Store(max, null);
      elems := s[..|s| - 1];
      nodes := nodes - {child};
      forall i {:trigger CellOf(elems, i)} | 1 <= i <= |elems| ensures Holds(elems[i - 1], CellOf(elems, i)) {
        DropCell(s, i);
        OtherNode(s, i, |s| / 2);
      }
      FirstNot(elems, child);
    }

    /** Let `child` take the place of the node at position `j`. */
    method Replace(node: Node, child: Node, ghost j: nat)
      requires Linked() && Ordered(elems) && 1 <= j <= |elems| && node == elems[j - 1] && child !in nodes
      modifies this`min, this`elems, this`nodes, nodes, child
      ensures Linked() && OrderedDown(elems, j) && elems[j - 1] == child && |elems| == |old(elems)|
      ensures nodes == old(nodes) - {node} + {child}
    {
      hide Distinct;
      hide Ordered;
      hide OrderedDown;
      ghost var s := elems;
      LookAt(j);
      ReplacePlaces(j, child);
      ReplaceKeeps(s, j, child);
      TakeOver(node, child, node.left, node.right, node.parent);
      elems := s[j - 1 := child];
      nodes := nodes - {node} + {child};
      forall i {:trigger CellOf(elems, i)} | 1 <= i <= |elems| ensures Holds(elems[i - 1], CellOf(elems, i)) {
        ReplaceCell(s, j, child, i);
        ReplacedOthers(s, j, child, i);
      }
    }

    /** The assignments: copy the links, and let the neighbours know. */
    method TakeOver(node: Node, child: Node, left: Node?, right: Node?, par: Node?)
      requires child != node && left == node.left && right == node.right && par == node.parent
      requires left != child && left != node && right != child && right != node && par != child && par != node
      requires (left != null ==> left != right && left != par) && (right != null ==> right != par)
      modifies this`min, child, if left == null then {} else {left}
      modifies if right == null then {} else {right}, if par == null then {} else {par}
      ensures Holds(child, Cell(left, right, par))
      ensures left != null ==> Holds(left, old(Cell(left.left, left.right, child)))
      ensures right != null ==> Holds(right, old(Cell(right.left, right.right, child)))
      ensures min == if par == null then child else old(min)
      ensures par != null && old(par.left) == node ==> Holds(par, old(Cell(child, par.right, par.parent)))
      ensures par != null && old(par.left) != node ==> Holds(par, old(Cell(par.left, child, par.parent)))
    {
      child.left, child.right, child.parent := node.left, node.right, node.parent;
      SetParent(child.left, child);
      SetParent(child.right, child);
      Rehang(node.parent, node, child);
    }

    lemma ReplacePlaces(j: nat, child: Node)
      requires Linked() && 1 <= j <= |elems| && child !in nodes
      ensures var s, n := elems, elems[j - 1]; var l, r, p := At(s, 2 * j), At(s, 2 * j + 1), At(s, j / 2);
        && l != child && l != n && r != child && r != n && p != child && p != n
        && (l != null ==> l != r && l != p) && (r != null ==> r != p)
        && (p != null ==> if j % 2 == 0 then p.left == n else p.left != n && p.right == n)
    {
      if j >= 2 {
        assert CellOf(elems, j / 2) == CellOf(elems, j / 2);
      }
    }

    /** heap_dequeue: take out a least node, if there is one. */
    method Dequeue()
      requires Valid()
      modifies this, nodes
      ensures Valid()
      ensures old(elems) == [] ==> elems == [] && nodes == old(nodes)
      ensures old(elems) != [] ==>
                && |elems| == |old(elems)| - 1 && old(min) in old(nodes) && nodes == old(nodes) - {old(min)}
                && forall n :: n in old(nodes) ==> old(min).key <= n.key
    {
      MinIsLeast();
      Remove(min);
    }

    /** heap_min: the node at the top is a least one, and there is one unless the heap is empty. */
    lemma MinIsLeast()
      requires Valid()
      ensures min == null <==> nodes == {}
      ensures min != null ==> min in nodes && forall n :: n in nodes ==> min.key <= n.key
    {
      if elems == [] {
      } else {
        assert elems[0] in elems && elems[0] in nodes && min == elems[0];
        forall n | n in nodes ensures min.key <= n.key {
          var i :| 0 <= i < |elems| && elems[i] == n;
          FirstIsLeast(elems, i + 1);
        }
      }
    }

    lemma AppendPlaces(newnode: Node, parent: Slot)
      requires Linked() && newnode !in nodes
      requires parent == if elems == [] then Slot.Min else SlotOf(elems, (|elems| + 1) / 2)
      ensures Load(parent) == At(elems, (|elems| + 1) / 2)
      ensures newnode !in elems
    {
      if elems != [] {
        LoadSlot((|elems| + 1) / 2);
      }
    }
  }

  lemma FirstNot(s: seq<Node>, n: Node)
    requires n !in s
    ensures At(s, 1) != n
  {
  }

  /** The nodes at other positions are not the neighbours of position `j`. */
  lemma ReplacedOthers(s: seq<Node>, j: nat, x: Node, i: nat)
    requires Distinct(s) && 1 <= j <= |s| && 1 <= i <= |s| && x !in s
    ensures s[j - 1 := x][i - 1] == if i == j then x else s[i - 1]
    ensures s[i - 1] != x
    ensures i / 2 != j ==> s[i - 1] != At(s, 2 * j) && s[i - 1] != At(s, 2 * j + 1)
    ensures i != j / 2 ==> s[i - 1] != At(s, j / 2)
  {
  }

  lemma OtherNode(s: seq<Node>, i: nat, j: nat)
    requires Distinct(s)
    ensures 1 <= i <= |s| && i != j ==> s[i - 1] != At(s, j)
  {
  }

  lemma InRange(s: seq<Node>, p: nat)
    ensures OrderedUp(s, p) ==> 1 <= p <= |s|
    ensures OrderedDown(s, p) ==> 1 <= p <= |s|
  {
  }

  /** The nodes at and around the positions of a node and its child, as far as there are any, are all
      different. */
  ghost predicate Apart(s: seq<Node>, p: nat, c: nat)
    requires 1 <= p && p == c / 2
  {
    var a, b, sib, cl, cr, top := At(s, p), At(s, c), At(s, Beside(c)), At(s, 2 * c), At(s, 2 * c + 1), At(s, p / 2);
    && a != b && cl != a && cl != b && cr != a && cr != b && (cl != null ==> cl != cr)
    && sib != a && sib != b && (sib != null ==> sib != cl && sib != cr)
    && top != a && top != b && (top != null ==> top != cl && top != cr && top != sib)
  }

  lemma Different(s: seq<Node>, p: nat, c: nat)
    requires Distinct(s) && 1 <= p && p == c / 2 && c <= |s|
    ensures Apart(s, p, c)
  {
  }

  /** What a node holds after the exchange, by what node it is. */
  lemma NewCell(s: seq<Node>, p: nat, c: nat, i: nat)
    requires Distinct(s) && 1 <= p && p == c / 2 && c <= |s| && 1 <= i <= |s|
    ensures var x, o, a, b := Swapped(s, p, c)[i - 1], CellOf(s, i), s[p - 1], s[c - 1];
      var sib, cl, cr, top := At(s, Beside(c)), At(s, 2 * c), At(s, 2 * c + 1), At(s, p / 2);
      && (x != a && x != b ==> x == s[i - 1])
      && CellOf(Swapped(s, p, c), i) ==
         if x == a then Cell(cl, cr, b)
         else if x == b then (if c == 2 * p then Cell(a, sib, top) else Cell(sib, a, top))
         else if x == sib then Cell(o.left, o.right, b)
         else if x == cl || x == cr then Cell(o.left, o.right, a)
         else if x == top then (if o.left == a then Cell(b, o.right, o.parent) else Cell(o.left, b, o.parent))
         else o
  {
    hide Distinct;
    SwapChild(s, p, c, i);
    Others(s, p, c, i);
    Different(s, p, c);
    OtherNode(s, p, 2 * i);
  }

  /** The nodes at other positions are none of those. */
  lemma Others(s: seq<Node>, p: nat, c: nat, i: nat)
    requires Distinct(s) && 1 <= p && p == c / 2 && c <= |s| && 1 <= i <= |s|
    ensures i != p && i != c ==> Swapped(s, p, c)[i - 1] == s[i - 1]
    ensures Swapped(s, p, c)[p - 1] == s[c - 1] && Swapped(s, p, c)[c - 1] == s[p - 1]
    ensures i != p ==> s[i - 1] != s[p - 1]
    ensures i != c ==> s[i - 1] != s[c - 1]
    ensures i != Beside(c) ==> s[i - 1] != At(s, Beside(c))
    ensures i / 2 != c ==> s[i - 1] != At(s, 2 * c) && s[i - 1] != At(s, 2 * c + 1)
    ensures i != p / 2 ==> s[i - 1] != At(s, p / 2)
  {
  }
}
