/** Splay trees as values, for libuv-dll/include/tree.h: what the linked nodes form, in one tree or in
    the three that a top-down splay works on.
  */
module SplaySpec {
  import opened Seqs

  class Node {
    const key: int
    var left: Node?
    var right: Node?

    constructor (k: int)
      ensures key == k && left == null && right == null
    {
      key := k;
      left, right := null, null;
    }
  }

  datatype Tree = Nil | T(l: Tree, n: Node, r: Tree)

  /** The outer edge of a tree with a hole at its inner end, from the hole up. */
  datatype Spine = End | Link(up: Spine, n: Node, side: Tree)

  function Ptr(t: Tree): Node? {
    if t.Nil? then null else t.n
  }

  /** The left tree, with `x` in the hole at its right end. */
  function PlugL(s: Spine, x: Tree): Tree {
    if s.End? then x else PlugL(s.up, T(s.side, s.n, x))
  }

  /** The right tree, with `x` in the hole at its left end. */
  function PlugR(s: Spine, x: Tree): Tree {
    if s.End? then x else PlugR(s.up, T(x, s.n, s.side))
  }

  // ---------- nodes ----------

  ghost function Nodes(t: Tree): set<Node> {
    if t.Nil? then {} else Nodes(t.l) + {t.n} + Nodes(t.r)
  }

  ghost function NodesS(s: Spine): set<Node> {
    if s.End? then {} else NodesS(s.up) + {s.n} + Nodes(s.side)
  }

  ghost predicate Proper(t: Tree) {
    t.T? ==>
      && t.n !in Nodes(t.l) && t.n !in Nodes(t.r) && Nodes(t.l) !! Nodes(t.r)
      && Proper(t.l) && Proper(t.r)
  }

  ghost predicate ProperS(s: Spine) {
    s.Link? ==>
      && s.n !in NodesS(s.up) && s.n !in Nodes(s.side) && NodesS(s.up) !! Nodes(s.side)
      && ProperS(s.up) && Proper(s.side)
  }

  lemma {:induction false} PlugNodesL(s: Spine, x: Tree)
    ensures Nodes(PlugL(s, x)) == NodesS(s) + Nodes(x)
    ensures Proper(PlugL(s, x)) <==> ProperS(s) && Proper(x) && NodesS(s) !! Nodes(x)
    decreases s
  {
    if s.Link? {
      PlugNodesL(s.up, T(s.side, s.n, x));
    }
  }

  lemma {:induction false} PlugNodesR(s: Spine, x: Tree)
    ensures Nodes(PlugR(s, x)) == NodesS(s) + Nodes(x)
    ensures Proper(PlugR(s, x)) <==> ProperS(s) && Proper(x) && NodesS(s) !! Nodes(x)
    decreases s
  {
    if s.Link? {
      PlugNodesR(s.up, T(x, s.n, s.side));
    }
  }

  // ---------- links ----------

  datatype Cell = Cell(left: Node?, right: Node?)

  ghost function Cells(t: Tree): (m: map<Node, Cell>)
    ensures m.Keys == Nodes(t)
  {
    if t.Nil? then map[] else Cells(t.l) + Cells(t.r) + map[t.n := Cell(Ptr(t.l), Ptr(t.r))]
  }

  /** What the nodes of the left tree hold when `hole` is at its right end. */
  ghost function CellsL(s: Spine, hole: Node?): (m: map<Node, Cell>)
    ensures m.Keys == NodesS(s)
  {
    if s.End? then map[] else CellsL(s.up, s.n) + Cells(s.side) + map[s.n := Cell(Ptr(s.side), hole)]
  }

  /** What the nodes of the right tree hold when `hole` is at its left end. */
  ghost function CellsR(s: Spine, hole: Node?): (m: map<Node, Cell>)
    ensures m.Keys == NodesS(s)
  {
    if s.End? then map[] else CellsR(s.up, s.n) + Cells(s.side) + map[s.n := Cell(hole, Ptr(s.side))]
  }

  lemma {:induction false} PlugCellsL(s: Spine, x: Tree)
    requires Proper(PlugL(s, x))
    ensures Cells(PlugL(s, x)) == CellsL(s, Ptr(x)) + Cells(x)
    decreases s
  {
    PlugNodesL(s, x);
    if s.Link? {
      PlugCellsL(s.up, T(s.side, s.n, x));
      Shuffle(CellsL(s.up, s.n), Cells(s.side), map[s.n := Cell(Ptr(s.side), Ptr(x))], Cells(x));
    }
  }

  lemma {:induction false} PlugCellsR(s: Spine, x: Tree)
    requires Proper(PlugR(s, x))
    ensures Cells(PlugR(s, x)) == CellsR(s, Ptr(x)) + Cells(x)
    decreases s
  {
    PlugNodesR(s, x);
    if s.Link? {
      PlugCellsR(s.up, T(x, s.n, s.side));
      Shuffle(CellsR(s.up, s.n), Cells(s.side), map[s.n := Cell(Ptr(x), Ptr(s.side))], Cells(x));
    }
  }

  lemma Shuffle(a: map<Node, Cell>, r: map<Node, Cell>, n: map<Node, Cell>, t: map<Node, Cell>)
    requires t.Keys !! r.Keys && t.Keys !! n.Keys
    ensures a + r + n + t == a + (t + r + n) == a + (r + t + n)
  {
  }

  /** The node whose link is the hole, or else the header. */
  function Inner(s: Spine, header: Node): Node {
    if s.End? then header else s.n
  }

  /** What the header points to: the root of the spine, or else the hole. */
  function Outer(s: Spine, hole: Node?): Node? {
    if s.End? then hole else Outer(s.up, s.n)
  }

  /** Only the innermost node knows what is in the hole. */
  lemma HoleCellL(s: Spine, h: Node?, h': Node?, n: Node)
    requires ProperS(s) && n in NodesS(s)
    ensures CellsL(s, h')[n] == if n == s.n then CellsL(s, h)[n].(right := h') else CellsL(s, h)[n]
  {
  }

  lemma HoleCellR(s: Spine, h: Node?, h': Node?, n: Node)
    requires ProperS(s) && n in NodesS(s)
    ensures CellsR(s, h')[n] == if n == s.n then CellsR(s, h)[n].(left := h') else CellsR(s, h)[n]
  {
  }

  // ---------- three trees ----------

  /** No node is twice in the three trees. */
  ghost predicate ProperSplit(lc: Spine, t: Tree, rc: Spine) {
    && ProperS(lc) && Proper(t) && ProperS(rc)
    && NodesS(lc) !! Nodes(t) && NodesS(rc) !! Nodes(t) && NodesS(lc) !! NodesS(rc)
  }

  ghost function NodesSplit(lc: Spine, t: Tree, rc: Spine): set<Node> {
    NodesS(lc) + Nodes(t) + NodesS(rc)
  }

  /** What a node of the three trees holds, with `lh` and `rh` in the holes. */
  ghost function CellAt(lc: Spine, t: Tree, rc: Spine, lh: Node?, rh: Node?, n: Node): Cell
    requires n in NodesSplit(lc, t, rc)
  {
    if n in Nodes(t) then Cells(t)[n]
    else if n in NodesS(lc) then CellsL(lc, lh)[n]
    else CellsR(rc, rh)[n]
  }

  lemma LinkLeftNodes(lc: Spine, t: Tree, rc: Spine)
    requires ProperSplit(lc, t, rc) && t.T?
    ensures ProperSplit(lc, t.l, Link(rc, t.n, t.r)) && NodesSplit(lc, t.l, Link(rc, t.n, t.r)) == NodesSplit(lc, t, rc)
  {
  }

  lemma LinkLeftCell(lc: Spine, t: Tree, rc: Spine, lh: Node?, rh: Node?, n: Node)
    requires ProperSplit(lc, t, rc) && t.T? && n in NodesSplit(lc, t, rc)
    ensures n in NodesSplit(lc, t.l, Link(rc, t.n, t.r))
    ensures var o := CellAt(lc, t, rc, lh, rh, n);
      CellAt(lc, t.l, Link(rc, t.n, t.r), lh, Ptr(t.l), n) == if rc.Link? && n == rc.n then o.(left := t.n) else o
  {
    LinkLeftNodes(lc, t, rc);
    if n in NodesS(rc) {
      HoleCellR(rc, rh, t.n, n);
    }
  }

  lemma LinkRightNodes(lc: Spine, t: Tree, rc: Spine)
    requires ProperSplit(lc, t, rc) && t.T?
    ensures ProperSplit(Link(lc, t.n, t.l), t.r, rc) && NodesSplit(Link(lc, t.n, t.l), t.r, rc) == NodesSplit(lc, t, rc)
  {
  }

  lemma LinkRightCell(lc: Spine, t: Tree, rc: Spine, lh: Node?, rh: Node?, n: Node)
    requires ProperSplit(lc, t, rc) && t.T? && n in NodesSplit(lc, t, rc)
    ensures n in NodesSplit(Link(lc, t.n, t.l), t.r, rc)
    ensures var o := CellAt(lc, t, rc, lh, rh, n);
      CellAt(Link(lc, t.n, t.l), t.r, rc, Ptr(t.r), rh, n) == if lc.Link? && n == lc.n then o.(right := t.n) else o
  {
    LinkRightNodes(lc, t, rc);
    if n in NodesS(lc) {
      HoleCellL(lc, lh, t.n, n);
    }
  }

  lemma RotateRNodes(t: Tree)
    requires Proper(t) && t.T? && t.l.T?
    ensures Nodes(RotateR(t)) == Nodes(t) && Proper(RotateR(t))
  {
  }

  lemma RotateLNodes(t: Tree)
    requires Proper(t) && t.T? && t.r.T?
    ensures Nodes(RotateL(t)) == Nodes(t) && Proper(RotateL(t))
  {
  }

  /** What a node holds is the same in the subtree it is in. */
  lemma SubCell(t: Tree, n: Node)
    requires Proper(t) && n in Nodes(t)
    ensures t.T?
    ensures n == t.n ==> Cells(t)[n] == Cell(Ptr(t.l), Ptr(t.r)) && n !in Nodes(t.l) && n !in Nodes(t.r)
    ensures n in Nodes(t.l) ==> n !in Nodes(t.r) && n != t.n && Cells(t)[n] == Cells(t.l)[n]
    ensures n in Nodes(t.r) ==> n !in Nodes(t.l) && n != t.n && Cells(t)[n] == Cells(t.r)[n]
    ensures n == t.n || n in Nodes(t.l) || n in Nodes(t.r)
    ensures Proper(t.l) && Proper(t.r)
  {
  }

  lemma RotateRCell(t: Tree, n: Node)
    requires Proper(t) && t.T? && t.l.T? && n in Nodes(t)
    ensures n in Nodes(RotateR(t))
    ensures var o := Cells(t)[n];
      Cells(RotateR(t))[n] == if n == t.n then o.(left := Ptr(t.l.r)) else if n == t.l.n then o.(right := t.n) else o
  {
    hide Cells;
    hide Proper;
    hide Nodes;
    RotateRNodes(t);
    RotateRParts(t);
    SubCell(t, n);
    SubCell(RotateR(t), n);
    if n in Nodes(t.l) {
      SubCell(t.l, n);
    }
    if n in Nodes(RotateR(t).r) {
      SubCell(RotateR(t).r, n);
    }
  }

  lemma RotateRParts(t: Tree)
    requires t.T? && t.l.T?
    ensures RotateR(t) == T(t.l.l, t.l.n, T(t.l.r, t.n, t.r)) && Ptr(t.l) == t.l.n
    ensures Ptr(RotateR(t).r) == t.n
    ensures t.l.n in Nodes(t.l) && t.n in Nodes(RotateR(t).r) && Nodes(t.l.l) <= Nodes(t.l)
  {
  }

  lemma RotateLCell(t: Tree, n: Node)
    requires Proper(t) && t.T? && t.r.T? && n in Nodes(t)
    ensures n in Nodes(RotateL(t))
    ensures var o := Cells(t)[n];
      Cells(RotateL(t))[n] == if n == t.n then o.(right := Ptr(t.r.l)) else if n == t.r.n then o.(left := t.n) else o
  {
    hide Cells;
    hide Proper;
    hide Nodes;
    RotateLNodes(t);
    RotateLParts(t);
    SubCell(t, n);
    SubCell(RotateL(t), n);
    if n in Nodes(t.r) {
      SubCell(t.r, n);
    }
    if n in Nodes(RotateL(t).l) {
      SubCell(RotateL(t).l, n);
    }
  }

  lemma RotateLParts(t: Tree)
    requires t.T? && t.r.T?
    ensures RotateL(t) == T(T(t.l, t.n, t.r.l), t.r.n, t.r.r) && Ptr(t.r) == t.r.n
    ensures Ptr(RotateL(t).l) == t.n
    ensures t.r.n in Nodes(t.r) && t.n in Nodes(RotateL(t).l) && Nodes(t.r.r) <= Nodes(t.r)
  {
  }

  lemma RotateRSplit(lc: Spine, t: Tree, rc: Spine)
    requires ProperSplit(lc, t, rc) && t.T? && t.l.T?
    ensures ProperSplit(lc, RotateR(t), rc) && NodesSplit(lc, RotateR(t), rc) == NodesSplit(lc, t, rc)
    ensures Nodes(RotateR(t)) == Nodes(t)
  {
    RotateRNodes(t);
  }

  lemma RotateLSplit(lc: Spine, t: Tree, rc: Spine)
    requires ProperSplit(lc, t, rc) && t.T? && t.r.T?
    ensures ProperSplit(lc, RotateL(t), rc) && NodesSplit(lc, RotateL(t), rc) == NodesSplit(lc, t, rc)
    ensures Nodes(RotateL(t)) == Nodes(t)
  {
    RotateLNodes(t);
  }

  lemma RotateRCellAt(lc: Spine, t: Tree, rc: Spine, lh: Node?, rh: Node?, n: Node)
    requires ProperSplit(lc, t, rc) && t.T? && t.l.T? && n in NodesSplit(lc, t, rc)
    ensures n in NodesSplit(lc, RotateR(t), rc)
    ensures var o := CellAt(lc, t, rc, lh, rh, n);
      CellAt(lc, RotateR(t), rc, lh, rh, n) == if n == t.n then o.(left := Ptr(t.l.r)) else if n == t.l.n then o.(right := t.n) else o
  {
    hide Cells;
    hide CellsL;
    hide CellsR;
    RotateRSplit(lc, t, rc);
    if n in Nodes(t) {
      RotateRCell(t, n);
    }
  }

  lemma RotateLCellAt(lc: Spine, t: Tree, rc: Spine, lh: Node?, rh: Node?, n: Node)
    requires ProperSplit(lc, t, rc) && t.T? && t.r.T? && n in NodesSplit(lc, t, rc)
    ensures n in NodesSplit(lc, RotateL(t), rc)
    ensures var o := CellAt(lc, t, rc, lh, rh, n);
      CellAt(lc, RotateL(t), rc, lh, rh, n) == if n == t.n then o.(right := Ptr(t.r.l)) else if n == t.r.n then o.(left := t.n) else o
  {
    hide Cells;
    hide CellsL;
    hide CellsR;
    RotateLSplit(lc, t, rc);
    if n in Nodes(t) {
      RotateLCell(t, n);
    }
  }

  lemma AssembleNodes(lc: Spine, t: Tree, rc: Spine)
    requires ProperSplit(lc, t, rc) && t.T?
    ensures var w := Assembled(lc, t, rc); Proper(w) && Nodes(w) == NodesSplit(lc, t, rc)
  {
    PlugNodesL(lc, t.l);
    PlugNodesR(rc, t.r);
  }

  /** What the nodes hold when the three trees are put together. */
  lemma AssembleCell(lc: Spine, t: Tree, rc: Spine, lh: Node?, rh: Node?, n: Node)
    requires ProperSplit(lc, t, rc) && t.T? && n in NodesSplit(lc, t, rc)
    ensures n in Nodes(Assembled(lc, t, rc))
    ensures var w, o := Assembled(lc, t, rc), CellAt(lc, t, rc, lh, rh, n);
      Cells(w)[n] ==
        if n == t.n then Cell(Outer(lc, Ptr(t.l)), Outer(rc, Ptr(t.r)))
        else if lc.Link? && n == lc.n then o.(right := Ptr(t.l))
        else if rc.Link? && n == rc.n then o.(left := Ptr(t.r))
        else o
  {
    AssembleNodes(lc, t, rc);
    OuterPlug(lc, t.l, rc, t.r);
    AssembledCells(lc, t, rc, n);
    if n in NodesS(lc) {
      HoleCellL(lc, lh, Ptr(t.l), n);
    } else if n in NodesS(rc) {
      HoleCellR(rc, rh, Ptr(t.r), n);
    }
  }

  lemma AssembledCells(lc: Spine, t: Tree, rc: Spine, n: Node)
    requires ProperSplit(lc, t, rc) && t.T? && n in NodesSplit(lc, t, rc)
    ensures n in Nodes(Assembled(lc, t, rc))
    ensures Cells(Assembled(lc, t, rc))[n] ==
      if n == t.n then Cell(Ptr(PlugL(lc, t.l)), Ptr(PlugR(rc, t.r)))
      else if n in NodesS(lc) then CellsL(lc, Ptr(t.l))[n]
      else if n in NodesS(rc) then CellsR(rc, Ptr(t.r))[n]
      else Cells(t)[n]
  {
    hide Cells;
    hide CellsL;
    hide CellsR;
    AssembleNodes(lc, t, rc);
    PlugNodesL(lc, t.l);
    PlugNodesR(rc, t.r);
    PlugCellsL(lc, t.l);
    PlugCellsR(rc, t.r);
    SubCell(Assembled(lc, t, rc), n);
    if n in Nodes(t) {
      SubCell(t, n);
    }
  }

  lemma {:induction false} OuterPlug(lc: Spine, x: Tree, rc: Spine, y: Tree)
    ensures Ptr(PlugL(lc, x)) == Outer(lc, Ptr(x)) && Ptr(PlugR(rc, y)) == Outer(rc, Ptr(y))
    decreases lc, rc
  {
    if lc.Link? {
      OuterPlug(lc.up, T(lc.side, lc.n, x), rc, y);
    } else if rc.Link? {
      OuterPlug(lc, x, rc.up, T(y, rc.n, rc.side));
    }
  }

  // ---------- order ----------

  function Elems(t: Tree): seq<Node> {
    if t.Nil? then [] else Elems(t.l) + [t.n] + Elems(t.r)
  }

  function ElemsL(s: Spine): seq<Node> {
    if s.End? then [] else ElemsL(s.up) + Elems(s.side) + [s.n]
  }

  function ElemsR(s: Spine): seq<Node> {
    if s.End? then [] else [s.n] + Elems(s.side) + ElemsR(s.up)
  }

  lemma {:induction false} PlugElemsL(s: Spine, x: Tree)
    ensures Elems(PlugL(s, x)) == ElemsL(s) + Elems(x)
    decreases s
  {
    if s.Link? {
      PlugElemsL(s.up, T(s.side, s.n, x));
      assert ElemsL(s.up) + (Elems(s.side) + [s.n] + Elems(x)) == ElemsL(s.up) + Elems(s.side) + [s.n] + Elems(x);
    }
  }

  lemma {:induction false} PlugElemsR(s: Spine, x: Tree)
    ensures Elems(PlugR(s, x)) == Elems(x) + ElemsR(s)
    decreases s
  {
    if s.Link? {
      PlugElemsR(s.up, T(x, s.n, s.side));
      assert Elems(x) + [s.n] + Elems(s.side) + ElemsR(s.up) == Elems(x) + ([s.n] + Elems(s.side) + ElemsR(s.up));
    }
  }

  /** The nodes of the three trees, from left to right. */
  function All(lc: Spine, t: Tree, rc: Spine): seq<Node> {
    ElemsL(lc) + Elems(t) + ElemsR(rc)
  }

  /** The three trees put together. */
  function Assembled(lc: Spine, t: Tree, rc: Spine): Tree
    requires t.T?
  {
    T(PlugL(lc, t.l), t.n, PlugR(rc, t.r))
  }

  lemma AssembledElems(lc: Spine, t: Tree, rc: Spine)
    requires t.T?
    ensures Elems(Assembled(lc, t, rc)) == All(lc, t, rc)
  {
    hide ElemsL;
    hide PlugL;
    PlugElemsL(lc, t.l);
    PlugElemsR(rc, t.r);
    var a, b, c, d := ElemsL(lc), Elems(t.l), Elems(t.r), ElemsR(rc);
    assert a + b + [t.n] + (c + d) == a + (b + [t.n] + c) + d;
  }

  function RotateR(t: Tree): Tree
    requires t.T? && t.l.T?
  {
    T(t.l.l, t.l.n, T(t.l.r, t.n, t.r))
  }

  function RotateL(t: Tree): Tree
    requires t.T? && t.r.T?
  {
    T(T(t.l, t.n, t.r.l), t.r.n, t.r.r)
  }

  lemma RotateElems(lc: Spine, t: Tree, rc: Spine)
    ensures t.T? && t.r.T? ==> All(lc, RotateL(t), rc) == All(lc, t, rc)
    ensures t.T? && t.l.T? ==> All(lc, RotateR(t), rc) == All(lc, t, rc)
  {
    assert t.T? && t.r.T? ==> Elems(RotateL(t)) == Elems(t);
    assert t.T? && t.l.T? ==> Elems(RotateR(t)) == Elems(t);
  }

  lemma LinkElems(lc: Spine, t: Tree, rc: Spine)
    requires t.T?
    ensures All(lc, t.l, Link(rc, t.n, t.r)) == All(lc, t, rc) == All(Link(lc, t.n, t.l), t.r, rc)
  {
    var a, b, c, d := ElemsL(lc), Elems(t.l), Elems(t.r), ElemsR(rc);
    assert a + b + ([t.n] + c + d) == a + (b + [t.n] + c) + d == a + b + [t.n] + c + d;
  }

  predicate Sorted(s: seq<Node>) {
    forall i, j :: 0 <= i < j < |s| ==> s[i].key < s[j].key
  }

  predicate AllBelow(s: seq<Node>, k: int) {
    forall i :: 0 <= i < |s| ==> s[i].key < k
  }

  predicate AllAbove(s: seq<Node>, k: int) {
    forall i :: 0 <= i < |s| ==> k < s[i].key
  }

  /** The left tree is below the key and the right tree above it. */
  predicate Parted(lc: Spine, rc: Spine, k: int) {
    AllBelow(ElemsL(lc), k) && AllAbove(ElemsR(rc), k)
  }

  lemma PartLeft(lc: Spine, t: Tree, rc: Spine, k: int)
    requires t.T? && Parted(lc, rc, k) && Sorted(All(lc, t, rc)) && k < t.n.key
    ensures Parted(lc, Link(rc, t.n, t.r), k)
  {
    SortedParts(ElemsL(lc), Elems(t.l), t.n, Elems(t.r), ElemsR(rc));
  }

  lemma PartRight(lc: Spine, t: Tree, rc: Spine, k: int)
    requires t.T? && Parted(lc, rc, k) && Sorted(All(lc, t, rc)) && t.n.key < k
    ensures Parted(Link(lc, t.n, t.l), rc, k)
  {
    SortedParts(ElemsL(lc), Elems(t.l), t.n, Elems(t.r), ElemsR(rc));
  }

  lemma SortedParts(b: seq<Node>, l: seq<Node>, n: Node, r: seq<Node>, a: seq<Node>)
    requires Sorted(b + (l + [n] + r) + a)
    ensures AllBelow(l, n.key) && AllAbove(r, n.key)
  {
    var s := b + (l + [n] + r) + a;
    assert s[|b| + |l|] == n;
    forall i | 0 <= i < |l| ensures l[i].key < n.key {
      assert s[|b| + i] == l[i];
    }
    forall i | 0 <= i < |r| ensures n.key < r[i].key {
      assert s[|b| + |l| + 1 + i] == r[i];
    }
  }

  /** The root has the key, or it is next to where the key would be: everything on the side of the key
      is on its other side. */
  predicate Splayed(w: Tree, k: int) {
    w.T? &&
    (w.n.key == k || (k < w.n.key && AllBelow(Elems(w.l), k)) || (w.n.key < k && AllAbove(Elems(w.r), k)))
  }

  /** If the key is in the tree, it is at the root. */
  lemma SplayedFinds(w: Tree, k: int, i: nat)
    requires Splayed(w, k) && Sorted(Elems(w)) && i < |Elems(w)| && Elems(w)[i].key == k
    ensures w.n.key == k
  {
    var l := |Elems(w.l)|;
    assert Elems(w)[l] == w.n;
  }

  lemma SplayDone(lc: Spine, t: Tree, rc: Spine, k: int)
    requires t.T? && Parted(lc, rc, k)
    requires t.n.key == k || (k < t.n.key && t.l.Nil?) || (t.n.key < k && t.r.Nil?)
    ensures Splayed(Assembled(lc, t, rc), k)
  {
    PlugElemsL(lc, t.l);
    PlugElemsR(rc, t.r);
    assert ElemsL(lc) + [] == ElemsL(lc) && [] + ElemsR(rc) == ElemsR(rc);
  }

  lemma {:induction false} ElemsNodes(t: Tree, n: Node)
    ensures n in Elems(t) <==> n in Nodes(t)
  {
    if t.T? {
      ElemsNodes(t.l, n);
      ElemsNodes(t.r, n);
    }
  }

  // ---------- insertion and removal ----------

  /** The tree with `n` as the new root, next to the old one. */
  function NewRoot(w: Tree, n: Node): Tree
    requires w.T?
  {
    if n.key < w.n.key then T(w.l, n, T(Nil, w.n, w.r)) else T(T(w.l, w.n, Nil), n, w.r)
  }

  lemma NewRootCells(w: Tree, n: Node)
    requires w.T? && Proper(w) && n !in Nodes(w)
    ensures var w' := NewRoot(w, n); Proper(w') && Nodes(w') == Nodes(w) + {n}
  {
  }

  lemma NewRootCell(w: Tree, n: Node, x: Node)
    requires w.T? && Proper(w) && n !in Nodes(w) && x in Nodes(w) + {n}
    ensures x in Nodes(NewRoot(w, n))
    ensures Cells(NewRoot(w, n))[x] ==
      if x == n then (if n.key < w.n.key then Cell(Ptr(w.l), w.n) else Cell(w.n, Ptr(w.r)))
      else if x == w.n then (if n.key < w.n.key then Cells(w)[x].(left := null) else Cells(w)[x].(right := null))
      else Cells(w)[x]
  {
    hide Cells;
    var w' := NewRoot(w, n);
    NewRootCells(w, n);
    SubCell(w', x);
    if x in Nodes(w) {
      SubCell(w, x);
    }
    if x in Nodes(w'.l) {
      SubCell(w'.l, x);
    }
    if x in Nodes(w'.r) {
      SubCell(w'.r, x);
    }
  }

  lemma NewRootElems(w: Tree, n: Node)
    requires Splayed(w, n.key) && w.n.key != n.key && Sorted(Elems(w))
    ensures var w' := NewRoot(w, n);
      && Sorted(Elems(w')) && Inserted(Elems(w), Elems(w'), n)
      && forall i :: 0 <= i < |Elems(w)| ==> Elems(w)[i].key != n.key
  {
    var l, r := Elems(w.l), Elems(w.r);
    if n.key < w.n.key {
      PutBefore(l, w.n, r, n);
      assert Elems(T(Nil, w.n, w.r)) == [w.n] + r;
    } else {
      PutAfter(l, w.n, r, n);
      assert Elems(T(w.l, w.n, Nil)) == l + [w.n];
    }
  }

  lemma PutBefore(l: seq<Node>, x: Node, r: seq<Node>, n: Node)
    requires Sorted(l + [x] + r) && AllBelow(l, n.key) && n.key < x.key
    ensures var s, s' := l + [x] + r, l + [n] + ([x] + r);
      Sorted(s') && Inserted(s, s', n) && forall i :: 0 <= i < |s| ==> s[i].key != n.key
  {
    var s := l + [x] + r;
    assert s[..|l|] == l && s[|l|..] == [x] + r;
    PutIn(l, [x] + r, n);
  }

  lemma PutAfter(l: seq<Node>, x: Node, r: seq<Node>, n: Node)
    requires Sorted(l + [x] + r) && AllAbove(r, n.key) && x.key < n.key
    ensures var s, s' := l + [x] + r, l + [x] + [n] + r;
      Sorted(s') && Inserted(s, s', n) && forall i :: 0 <= i < |s| ==> s[i].key != n.key
  {
    var s := l + [x] + r;
    assert s[..|l| + 1] == l + [x] && s[|l| + 1..] == r;
    PutIn(l + [x], r, n);
  }

  lemma PutIn(a: seq<Node>, b: seq<Node>, n: Node)
    requires Sorted(a + b) && (a != [] ==> a[|a| - 1].key < n.key) && (b != [] ==> n.key < b[0].key)
    ensures Sorted(a + [n] + b) && forall i :: 0 <= i < |a + b| ==> (a + b)[i].key != n.key
  {
    var s, s' := a + b, a + [n] + b;
    forall i | 0 <= i < |a| ensures s'[i] == s[i] && s[i].key < n.key {
      assert s[i] == a[i] && s[|a| - 1] == a[|a| - 1];
    }
    forall i | |a| <= i < |s| ensures s'[i + 1] == s[i] && n.key < s[i].key {
      assert s[|a|] == b[0];
    }
    forall i, j | 0 <= i < j < |s'| ensures s'[i].key < s'[j].key {
      assert i > |a| ==> s'[i] == s[i - 1];
      assert j > |a| ==> s'[j] == s[j - 1];
    }
  }

  lemma RemovedSorted(s: seq<Node>, s': seq<Node>, n: Node)
    requires Removed(s, s', n) && Sorted(s)
    ensures Sorted(s')
  {
  }

  /** The root taken out, its subtrees `l` and `r` side by side. */
  lemma RootRemoved(w: Tree, l: seq<Node>)
    requires w.T? && l == Elems(w.l)
    ensures Removed(Elems(w), l + Elems(w.r), w.n)
  {
    var s, r := Elems(w), Elems(w.r);
    assert s[|l|] == w.n && s[..|l|] == l && s[|l| + 1..] == r;
  }

  /** Splaying a tree with a key above all of it brings up the last node. */
  lemma LastUp(w: Tree, k: int)
    requires Splayed(w, k) && AllBelow(Elems(w), k)
    ensures w.r.Nil? && Elems(w) == Elems(w.l) + [w.n]
  {
    LastAlone(Elems(w.l), w.n, Elems(w.r), k);
    EmptyElems(w.r);
  }

  lemma LastAlone(l: seq<Node>, n: Node, r: seq<Node>, k: int)
    requires AllBelow(l + [n] + r, k) && (n.key == k || (k < n.key && AllBelow(l, k)) || (n.key < k && AllAbove(r, k)))
    ensures r == [] && l + [n] + r == l + [n]
  {
    PartsBelow(l, n, r, k);
    NotBoth(r, k);
  }

  lemma PartsBelow(l: seq<Node>, n: Node, r: seq<Node>, k: int)
    requires AllBelow(l + [n] + r, k)
    ensures n.key < k && AllBelow(r, k)
  {
    var s := l + [n] + r;
    assert s[|l|] == n;
    forall i | 0 <= i < |r| ensures r[i].key < k {
      assert s[|l| + 1 + i] == r[i];
    }
  }

  lemma NotBoth(r: seq<Node>, k: int)
    ensures r != [] && AllAbove(r, k) ==> !AllBelow(r, k)
  {
    if r != [] && AllAbove(r, k) {
      assert k < r[0].key;
    }
  }

  lemma EmptyElems(t: Tree)
    requires Elems(t) == []
    ensures t.Nil?
  {
  }

  lemma LeftBelow(w: Tree)
    requires w.T? && Sorted(Elems(w))
    ensures AllBelow(Elems(w.l), w.n.key) && Sorted(Elems(w.l))
  {
    var s, l := Elems(w), Elems(w.l);
    assert s[|l|] == w.n;
    forall i | 0 <= i < |l| ensures l[i] == s[i] {
    }
  }
}
