/** Red-black trees as values, for libuv-dll/include/tree.h: what the linked nodes form, a tree with a
    hole in it, and the colours.
  */
module RbSpec {
  import opened Bits
  import opened Seqs

  class Node {
    const key: int
    var left: Node?
    var right: Node?
    var parent: Node?
    var red: bool

    constructor (k: int)
      ensures key == k
    {
      key := k;
      left, right, parent, red := null, null, null, false;
    }
  }

  datatype Tree = Nil | T(l: Tree, n: Node, red: bool, r: Tree)

  /** A tree with a hole: the hole is the whole tree, or the left or the right child of a node. */
  datatype Ctx = Top | InL(up: Ctx, n: Node, red: bool, r: Tree) | InR(up: Ctx, n: Node, red: bool, l: Tree)

  function Ptr(t: Tree): Node? {
    if t.Nil? then null else t.n
  }

  function ParentOf(c: Ctx): Node? {
    if c.Top? then null else c.n
  }

  /** The tree with the hole filled. */
  function Plug(c: Ctx, t: Tree): Tree {
    match c
    case Top => t
    case InL(up, n, red, r) => Plug(up, T(t, n, red, r))
    case InR(up, n, red, l) => Plug(up, T(l, n, red, t))
  }

  // ---------- nodes ----------

  ghost function Nodes(t: Tree): set<Node> {
    if t.Nil? then {} else Nodes(t.l) + {t.n} + Nodes(t.r)
  }

  ghost function NodesC(c: Ctx): set<Node> {
    match c
    case Top => {}
    case InL(up, n, _, r) => NodesC(up) + {n} + Nodes(r)
    case InR(up, n, _, l) => NodesC(up) + {n} + Nodes(l)
  }

  /** No node occurs twice. */
  ghost predicate Proper(t: Tree) {
    t.T? ==>
      && t.n !in Nodes(t.l) && t.n !in Nodes(t.r) && Nodes(t.l) !! Nodes(t.r)
      && Proper(t.l) && Proper(t.r)
  }

  ghost predicate ProperC(c: Ctx) {
    match c
    case Top => true
    case InL(up, n, _, r) => n !in Nodes(r) && n !in NodesC(up) && Nodes(r) !! NodesC(up) && Proper(r) && ProperC(up)
    case InR(up, n, _, l) => n !in Nodes(l) && n !in NodesC(up) && Nodes(l) !! NodesC(up) && Proper(l) && ProperC(up)
  }

  lemma {:induction false} PlugNodes(c: Ctx, t: Tree)
    ensures Nodes(Plug(c, t)) == NodesC(c) + Nodes(t)
    ensures Proper(Plug(c, t)) <==> ProperC(c) && Proper(t) && NodesC(c) !! Nodes(t)
    decreases c
  {
    match c
    case Top =>
    case InL(up, n, red, r) => PlugNodes(up, T(t, n, red, r));
    case InR(up, n, red, l) => PlugNodes(up, T(l, n, red, t));
  }

  // ---------- links ----------

  /** What a node holds. */
  datatype Cell = Cell(left: Node?, right: Node?, parent: Node?, red: bool)

  /** What the nodes of `t` hold when its root has the parent `p`. */
  ghost function Cells(t: Tree, p: Node?): (m: map<Node, Cell>)
    ensures m.Keys == Nodes(t)
  {
    if t.Nil? then map[] else Cells(t.l, t.n) + Cells(t.r, t.n) + map[t.n := Cell(Ptr(t.l), Ptr(t.r), p, t.red)]
  }

  /** What the nodes around a hole hold when `hole` is in it. */
  ghost function CellsC(c: Ctx, hole: Node?): (m: map<Node, Cell>)
    ensures m.Keys == NodesC(c)
  {
    match c
    case Top => map[]
    case InL(up, n, red, r) => CellsC(up, n) + Cells(r, n) + map[n := Cell(hole, Ptr(r), ParentOf(up), red)]
    case InR(up, n, red, l) => CellsC(up, n) + Cells(l, n) + map[n := Cell(Ptr(l), hole, ParentOf(up), red)]
  }

  lemma {:induction false} PlugCells(c: Ctx, t: Tree)
    requires Proper(Plug(c, t))
    ensures Cells(Plug(c, t), null) == CellsC(c, Ptr(t)) + Cells(t, ParentOf(c))
    decreases c
  {
    PlugNodes(c, t);
    match c
    case Top =>
      assert map[] + Cells(t, null) == Cells(t, null);
    case InL(up, n, red, r) =>
      PlugCells(up, T(t, n, red, r));
      Shuffle(CellsC(up, n), Cells(r, n), map[n := Cell(Ptr(t), Ptr(r), ParentOf(up), red)], Cells(t, n));
    case InR(up, n, red, l) =>
      PlugCells(up, T(l, n, red, t));
      Shift(CellsC(up, n), Cells(l, n), map[n := Cell(Ptr(l), Ptr(t), ParentOf(up), red)], Cells(t, n));
  }

  lemma Shuffle(a: map<Node, Cell>, r: map<Node, Cell>, n: map<Node, Cell>, t: map<Node, Cell>)
    requires t.Keys !! r.Keys && t.Keys !! n.Keys
    ensures a + r + n + t == a + (t + r + n)
  {
  }

  lemma Shift(a: map<Node, Cell>, l: map<Node, Cell>, n: map<Node, Cell>, t: map<Node, Cell>)
    requires t.Keys !! n.Keys
    ensures a + l + n + t == a + (l + t + n)
  {
  }

  /** What a node holds that is in the focus `t`, or around it. */
  lemma CellAt(c: Ctx, t: Tree, n: Node)
    requires Proper(Plug(c, t)) && n in Nodes(Plug(c, t))
    ensures n in NodesC(c) || n in Nodes(t)
    ensures n in Nodes(t) ==> Cells(Plug(c, t), null)[n] == Cells(t, ParentOf(c))[n]
    ensures n in NodesC(c) ==> n !in Nodes(t) && Cells(Plug(c, t), null)[n] == CellsC(c, Ptr(t))[n]
  {
    hide *;
    PlugNodes(c, t);
    PlugCells(c, t);
  }

  /** What the node in focus holds. */
  lemma FocusCell(c: Ctx, t: Tree)
    requires Proper(Plug(c, t)) && t.T?
    ensures t.n in Nodes(Plug(c, t))
    ensures Cells(Plug(c, t), null)[t.n] == Cell(Ptr(t.l), Ptr(t.r), ParentOf(c), t.red)
  {
    PlugNodes(c, t);
    CellAt(c, t, t.n);
  }

  /** A cell whose parent is `q` if it belongs to the root of `t`. */
  function WithParent(t: Tree, n: Node, o: Cell, q: Node?): Cell {
    if n == Ptr(t) then o.(parent := q) else o
  }

  /** A cell that has `to` in the hole of `c` if it belongs to the node above. */
  function WithChild(c: Ctx, n: Node, o: Cell, to: Node?): Cell {
    if n != ParentOf(c) then o
    else if c.InL? then o.(left := to)
    else o.(right := to)
  }

  lemma CellsParent(t: Tree, p: Node?, q: Node?, n: Node)
    requires n in Nodes(t)
    ensures Cells(t, q)[n] == WithParent(t, n, Cells(t, p)[n], q)
    ensures p == q ==> Cells(t, q)[n] == Cells(t, p)[n]
  {
  }

  /** Hanging a subtree elsewhere changes the parent of its root. */
  lemma MovedCell(c: Ctx, c': Ctx, w: Tree, w': Tree, t: Tree, n: Node)
    requires w == Plug(c, t) && w' == Plug(c', t) && Proper(w) && Proper(w') && n in Nodes(t)
    ensures n in Nodes(w) && n in Nodes(w')
    ensures Cells(w', null)[n] == WithParent(t, n, Cells(w, null)[n], ParentOf(c'))
    ensures ParentOf(c) == ParentOf(c') ==> Cells(w', null)[n] == Cells(w, null)[n]
  {
    hide Cells;
    hide CellsC;
    hide Proper;
    hide ProperC;
    hide WithParent;
    hide Plug;
    hide Nodes;
    hide NodesC;
    PlugNodes(c, t);
    PlugNodes(c', t);
    CellAt(c, t, n);
    CellAt(c', t, n);
    CellsParent(t, ParentOf(c), ParentOf(c'), n);
  }

  /** Only the node above a hole knows what is in it. */
  lemma HoleCell(c: Ctx, t: Tree, t': Tree, n: Node)
    requires Proper(Plug(c, t)) && Proper(Plug(c, t')) && n in NodesC(c)
    ensures n in Nodes(Plug(c, t)) && n in Nodes(Plug(c, t'))
    ensures Cells(Plug(c, t'), null)[n] == WithChild(c, n, Cells(Plug(c, t), null)[n], Ptr(t'))
  {
    hide Cells;
    hide Nodes;
    hide Proper;
    PlugNodes(c, t);
    PlugNodes(c, t');
    CellAt(c, t, n);
    CellAt(c, t', n);
  }

  // ---------- painting ----------

  lemma PaintedCells(t: Tree, red: bool, p: Node?, n: Node)
    requires Proper(t) && t.T?
    ensures var w := t.(red := red);
      && Proper(w) && Nodes(w) == Nodes(t) && t.n in Nodes(t) && Ptr(w) == Ptr(t)
      && (n in Nodes(t) ==> Cells(w, p)[n] == if n == t.n then Cells(t, p)[n].(red := red) else Cells(t, p)[n])
  {
  }

  lemma PaintCell(c: Ctx, t: Tree, red: bool, n: Node)
    requires Proper(Plug(c, t)) && t.T? && n in Nodes(Plug(c, t))
    ensures var w' := Plug(c, t.(red := red));
      && Proper(w') && Nodes(w') == Nodes(Plug(c, t))
      && Cells(w', null)[n] == if n == t.n then Cells(Plug(c, t), null)[n].(red := red) else Cells(Plug(c, t), null)[n]
  {
    hide *;
    PlugNodes(c, t);
    PlugNodes(c, t.(red := red));
    PaintedCells(t, red, ParentOf(c), n);
    CellAt(c, t, n);
    CellAt(c, t.(red := red), n);
  }

  lemma {:induction false} RootOfPlug(c: Ctx, t: Tree, t': Tree)
    requires c.Top? ==> Ptr(t) == Ptr(t')
    ensures Ptr(Plug(c, t)) == Ptr(Plug(c, t'))
    decreases c
  {
    match c
    case Top =>
    case InL(up, n, red, r) => RootOfPlug(up, T(t, n, red, r), T(t', n, red, r));
    case InR(up, n, red, l) => RootOfPlug(up, T(l, n, red, t), T(l, n, red, t'));
  }

  // ---------- rotations ----------

  function RotateL(t: Tree): Tree
    requires t.T? && t.r.T?
  {
    T(T(t.l, t.n, t.red, t.r.l), t.r.n, t.r.red, t.r.r)
  }

  function RotateR(t: Tree): Tree
    requires t.T? && t.l.T?
  {
    T(t.l.l, t.l.n, t.l.red, T(t.l.r, t.n, t.red, t.r))
  }

  /** What a node holds after the node of `t` was rotated to the left. */
  ghost function CellL(c: Ctx, t: Tree, n: Node): Cell
    requires t.T? && t.r.T? && n in Nodes(Plug(c, t))
  {
    if n == t.n then Cell(Ptr(t.l), Ptr(t.r.l), t.r.n, t.red)
    else if n == t.r.n then Cell(t.n, Ptr(t.r.r), ParentOf(c), t.r.red)
    else WithChild(c, n, WithParent(t.r.l, n, Cells(Plug(c, t), null)[n], t.n), t.r.n)
  }

  lemma RotateLNodes(c: Ctx, t: Tree)
    requires t.T? && t.r.T? && Proper(Plug(c, t))
    ensures Nodes(RotateL(t)) == Nodes(t) && Nodes(Plug(c, RotateL(t))) == Nodes(Plug(c, t)) && Proper(Plug(c, RotateL(t)))
  {
    PlugNodes(c, t);
    PlugNodes(c, RotateL(t));
  }

  lemma RotateLCell(c: Ctx, t: Tree, n: Node)
    requires t.T? && t.r.T? && Proper(Plug(c, t)) && n in Nodes(Plug(c, t))
    ensures n in Nodes(Plug(c, RotateL(t))) && Cells(Plug(c, RotateL(t)), null)[n] == CellL(c, t, n)
  {
    hide Cells;
    hide CellsC;
    hide Plug;
    var w, w', t' := Plug(c, t), Plug(c, RotateL(t)), RotateL(t);
    PlugNodes(c, t);
    RotateLNodes(c, t);
    UpOne(c, t.l, t.n, t.red, t.r);
    UpOne(InR(c, t.n, t.red, t.l), t.r.l, t.r.n, t.r.red, t.r.r);
    UpOne(c, t'.l, t'.n, t'.red, t'.r);
    UpOne(InL(c, t'.n, t'.red, t'.r), t'.l.l, t'.l.n, t'.l.red, t'.l.r);
    if n in NodesC(c) {
      HoleCell(c, t, t', n);
    } else if n == t.n {
      FocusCell(InL(c, t'.n, t'.red, t'.r), t'.l);
    } else if n == t.r.n {
      FocusCell(c, t');
    } else if n in Nodes(t.l) {
      MovedCell(InL(c, t.n, t.red, t.r), InL(InL(c, t'.n, t'.red, t'.r), t.n, t.red, t.r.l), w, w', t.l, n);
    } else if n in Nodes(t.r.l) {
      MovedCell(InL(InR(c, t.n, t.red, t.l), t.r.n, t.r.red, t.r.r), InR(InL(c, t'.n, t'.red, t'.r), t.n, t.red, t.l), w, w', t.r.l, n);
    } else {
      MovedCell(InR(InR(c, t.n, t.red, t.l), t.r.n, t.r.red, t.r.l), InR(c, t'.n, t'.red, t'.l), w, w', t.r.r, n);
    }
  }

  lemma UpOne(c: Ctx, l: Tree, n: Node, red: bool, r: Tree)
    ensures Plug(InL(c, n, red, r), l) == Plug(c, T(l, n, red, r)) == Plug(InR(c, n, red, l), r)
  {
  }

  /** What a node holds after the node of `t` was rotated to the right. */
  ghost function CellR(c: Ctx, t: Tree, n: Node): Cell
    requires t.T? && t.l.T? && n in Nodes(Plug(c, t))
  {
    if n == t.n then Cell(Ptr(t.l.r), Ptr(t.r), t.l.n, t.red)
    else if n == t.l.n then Cell(Ptr(t.l.l), t.n, ParentOf(c), t.l.red)
    else WithChild(c, n, WithParent(t.l.r, n, Cells(Plug(c, t), null)[n], t.n), t.l.n)
  }

  lemma RotateRNodes(c: Ctx, t: Tree)
    requires t.T? && t.l.T? && Proper(Plug(c, t))
    ensures Nodes(RotateR(t)) == Nodes(t) && Nodes(Plug(c, RotateR(t))) == Nodes(Plug(c, t)) && Proper(Plug(c, RotateR(t)))
  {
    PlugNodes(c, t);
    PlugNodes(c, RotateR(t));
  }

  lemma RotateRCell(c: Ctx, t: Tree, n: Node)
    requires t.T? && t.l.T? && Proper(Plug(c, t)) && n in Nodes(Plug(c, t))
    ensures n in Nodes(Plug(c, RotateR(t))) && Cells(Plug(c, RotateR(t)), null)[n] == CellR(c, t, n)
  {
    hide Cells;
    hide CellsC;
    hide Plug;
    var w, w', t' := Plug(c, t), Plug(c, RotateR(t)), RotateR(t);
    PlugNodes(c, t);
    RotateRNodes(c, t);
    UpOne(c, t.l, t.n, t.red, t.r);
    UpOne(InL(c, t.n, t.red, t.r), t.l.l, t.l.n, t.l.red, t.l.r);
    UpOne(c, t'.l, t'.n, t'.red, t'.r);
    UpOne(InR(c, t'.n, t'.red, t'.l), t'.r.l, t'.r.n, t'.r.red, t'.r.r);
    if n in NodesC(c) {
      HoleCell(c, t, t', n);
    } else if n == t.n {
      FocusCell(InR(c, t'.n, t'.red, t'.l), t'.r);
    } else if n == t.l.n {
      FocusCell(c, t');
    } else if n in Nodes(t.r) {
      MovedCell(InR(c, t.n, t.red, t.l), InR(InR(c, t'.n, t'.red, t'.l), t.n, t.red, t.l.r), w, w', t.r, n);
    } else if n in Nodes(t.l.r) {
      MovedCell(InR(InL(c, t.n, t.red, t.r), t.l.n, t.l.red, t.l.l), InL(InR(c, t'.n, t'.red, t'.l), t.n, t.red, t.r), w, w', t.l.r, n);
    } else {
      MovedCell(InL(InL(c, t.n, t.red, t.r), t.l.n, t.l.red, t.l.r), InL(c, t'.n, t'.red, t'.r), w, w', t.l.l, n);
    }
  }

  // ---------- order ----------

  /** The nodes from left to right. */
  function Elems(t: Tree): seq<Node> {
    if t.Nil? then [] else Elems(t.l) + [t.n] + Elems(t.r)
  }

  function Before(c: Ctx): seq<Node> {
    match c
    case Top => []
    case InL(up, _, _, _) => Before(up)
    case InR(up, n, _, l) => Before(up) + Elems(l) + [n]
  }

  function After(c: Ctx): seq<Node> {
    match c
    case Top => []
    case InL(up, n, _, r) => [n] + Elems(r) + After(up)
    case InR(up, _, _, _) => After(up)
  }

  lemma {:induction false} PlugElems(c: Ctx, t: Tree)
    ensures Elems(Plug(c, t)) == Before(c) + Elems(t) + After(c)
    decreases c
  {
    match c
    case Top =>
    case InL(up, n, red, r) =>
      PlugElems(up, T(t, n, red, r));
      RegroupL(Before(up), Elems(t), [n], Elems(r), After(up));
    case InR(up, n, red, l) =>
      PlugElems(up, T(l, n, red, t));
      RegroupR(Before(up), Elems(l), [n], Elems(t), After(up));
  }

  lemma RegroupL(b: seq<Node>, l: seq<Node>, n: seq<Node>, r: seq<Node>, a: seq<Node>)
    ensures b + (l + n + r) + a == b + l + (n + r + a)
  {
  }

  lemma RegroupR(b: seq<Node>, l: seq<Node>, n: seq<Node>, r: seq<Node>, a: seq<Node>)
    ensures b + (l + n + r) + a == b + l + n + r + a
  {
  }

  /** A tree with the same nodes in the same order in its place. */
  lemma SameElems(c: Ctx, t: Tree, t': Tree)
    requires Elems(t) == Elems(t')
    ensures Elems(Plug(c, t)) == Elems(Plug(c, t'))
  {
    PlugElems(c, t);
    PlugElems(c, t');
  }

  lemma RotateElems(t: Tree)
    ensures t.T? && t.r.T? ==> Elems(RotateL(t)) == Elems(t)
    ensures t.T? && t.l.T? ==> Elems(RotateR(t)) == Elems(t)
  {
  }

  lemma PaintElems(t: Tree, red: bool)
    requires t.T?
    ensures Elems(t.(red := red)) == Elems(t)
  {
  }

  lemma {:induction false} ElemsNodes(t: Tree, n: Node)
    ensures n in Elems(t) <==> n in Nodes(t)
  {
    if t.T? {
      ElemsNodes(t.l, n);
      ElemsNodes(t.r, n);
    }
  }

  // ---------- colours ----------

  predicate IsRed(t: Tree) {
    t.T? && t.red
  }

  /** The black nodes on the leftmost path. */
  function Blacks(t: Tree): nat {
    if t.Nil? then 0 else Blacks(t.l) + if t.red then 0 else 1
  }

  /** All paths have equally many black nodes, and no red node has a red child. */
  predicate RB(t: Tree) {
    t.T? ==>
      && RB(t.l) && RB(t.r) && Blacks(t.l) == Blacks(t.r)
      && (t.red ==> !IsRed(t.l) && !IsRed(t.r))
  }

  predicate RedBlack(t: Tree) {
    RB(t) && !IsRed(t)
  }

  function Blacken(t: Tree): Tree {
    if t.T? then t.(red := false) else t
  }

  predicate RedTop(c: Ctx) {
    !c.Top? && c.red
  }

  /** The tree is red-black with any tree of `h` black nodes a path in the hole, as far as the node
      above the hole does not clash with it. */
  predicate RBC(c: Ctx, h: nat) {
    match c
    case Top => true
    case InL(up, _, red, r) => RB(r) && Blacks(r) == h && (red ==> !IsRed(r) && !RedTop(up)) && RBC(up, h + if red then 0 else 1)
    case InR(up, _, red, l) => RB(l) && Blacks(l) == h && (red ==> !IsRed(l) && !RedTop(up)) && RBC(up, h + if red then 0 else 1)
  }

  /** The root, if the hole is below it, is black. */
  predicate BlackRoot(c: Ctx) {
    c.Top? || if c.up.Top? then !c.red else BlackRoot(c.up)
  }

  lemma {:induction false} PlugRB(c: Ctx, t: Tree)
    requires RB(t) && RBC(c, Blacks(t)) && !(RedTop(c) && IsRed(t))
    ensures RB(Plug(c, t))
    decreases c
  {
    match c
    case Top =>
    case InL(up, n, red, r) => PlugRB(up, T(t, n, red, r));
    case InR(up, n, red, l) => PlugRB(up, T(l, n, red, t));
  }

  lemma {:induction false} PlugBlack(c: Ctx, t: Tree)
    requires BlackRoot(c) && (c.Top? ==> !IsRed(t))
    ensures !IsRed(Plug(c, t))
    decreases c
  {
    match c
    case Top =>
    case InL(up, n, red, r) => PlugBlack(up, T(t, n, red, r));
    case InR(up, n, red, l) => PlugBlack(up, T(l, n, red, t));
  }

  /** A red-black tree can be opened anywhere. */
  lemma {:induction false} OpenRB(c: Ctx, t: Tree)
    requires RB(Plug(c, t))
    ensures RB(t) && RBC(c, Blacks(t)) && !(RedTop(c) && IsRed(t))
    decreases c
  {
    match c
    case Top =>
    case InL(up, n, red, r) => OpenRB(up, T(t, n, red, r));
    case InR(up, n, red, l) => OpenRB(up, T(l, n, red, t));
  }

  lemma {:induction false} OpenBlack(c: Ctx, t: Tree)
    requires !IsRed(Plug(c, t))
    ensures BlackRoot(c) && (c.Top? ==> !IsRed(t))
    decreases c
  {
    match c
    case Top =>
    case InL(up, n, red, r) => OpenBlack(up, T(t, n, red, r));
    case InR(up, n, red, l) => OpenBlack(up, T(l, n, red, t));
  }

  // ---------- height ----------

  function Height(t: Tree): nat {
    if t.Nil? then 0 else 1 + if Height(t.l) < Height(t.r) then Height(t.r) else Height(t.l)
  }

  function Size(t: Tree): nat {
    if t.Nil? then 0 else Size(t.l) + 1 + Size(t.r)
  }

  lemma {:induction false} HeightOfBlacks(t: Tree)
    requires RB(t)
    ensures Height(t) <= 2 * Blacks(t) + if IsRed(t) then 1 else 0
    ensures Size(t) + 1 >= Pow2(Blacks(t))
  {
    if t.T? {
      HeightOfBlacks(t.l);
      HeightOfBlacks(t.r);
    }
  }

  /** The height of a red-black tree of n nodes is at most 2 lg (n + 1). */
  lemma HeightBound(t: Tree)
    requires RedBlack(t)
    ensures Pow2(Height(t)) <= (Size(t) + 1) * (Size(t) + 1)
  {
    HeightOfBlacks(t);
    var p, n := Pow2(Blacks(t)), Size(t) + 1;
    Pow2Mono(Height(t), 2 * Blacks(t));
    Pow2Add(Blacks(t), Blacks(t));
    assert p * p <= n * n by {
      Square(p, n);
    }
  }

  lemma Square(p: nat, n: nat)
    requires p <= n
    ensures p * p <= n * n
  {
    assert n * n == p * p + (n - p) * (n + p);
  }

  // ---------- insertion ----------

  /** The tree at the node above the hole. */
  function Above(c: Ctx, t: Tree): (r: Tree)
    requires !c.Top?
    ensures r.T?
  {
    if c.InL? then T(t, c.n, c.red, c.r) else T(c.l, c.n, c.red, t)
  }

  /** The tree beside the hole. */
  function Sibling(c: Ctx): Tree
    requires !c.Top?
  {
    if c.InL? then c.r else c.l
  }

  function WithSibling(c: Ctx, s: Tree): Ctx
    requires !c.Top?
  {
    if c.InL? then InL(c.up, c.n, c.red, s) else InR(c.up, c.n, c.red, s)
  }

  /** The hole on the other side, with `t` in this one. */
  function Beside(c: Ctx, t: Tree): Ctx
    requires !c.Top?
  {
    if c.InL? then InR(c.up, c.n, c.red, t) else InL(c.up, c.n, c.red, t)
  }

  lemma SameTree(c: Ctx, t: Tree, s: Tree)
    requires !c.Top?
    ensures Plug(c, t) == Plug(c.up, Above(c, t)) == Plug(Beside(c, t), Sibling(c))
    ensures Plug(WithSibling(c, s), t) == Plug(Beside(c, t), s)
  {
  }

  function Depth(c: Ctx): nat {
    if c.Top? then 0 else 1 + Depth(c.up)
  }

  /** All is well but for the red node in focus, whose parent may be red too. */
  predicate RedFocus(c: Ctx, t: Tree) {
    IsRed(t) && RB(t) && RBC(c, Blacks(t)) && BlackRoot(c)
  }

  /** With a red parent there is a black grandparent. */
  lemma Grandparent(c: Ctx, t: Tree)
    requires RedFocus(c, t) && RedTop(c)
    ensures t.T? && !c.up.Top? && !c.up.red
    ensures var h, s, u := Blacks(t), Sibling(c), Sibling(c.up);
      && RB(s) && Blacks(s) == h && !IsRed(s) && RB(u) && Blacks(u) == h
      && RBC(c.up, h) && RBC(c.up.up, h + 1) && BlackRoot(c.up.up)
  {
    assert RBC(c.up, Blacks(t)) && BlackRoot(c.up);
  }

  /** The red parent and uncle turn black, and the grandparent red. */
  function Recolored(c: Ctx, t: Tree): Tree
    requires !c.Top? && !c.up.Top? && IsRed(Sibling(c.up))
  {
    var p, u := Blacken(Above(c, t)), Blacken(Sibling(c.up));
    if c.up.InL? then T(p, c.up.n, true, u) else T(u, c.up.n, true, p)
  }

  lemma RecolorKeeps(c: Ctx, t: Tree)
    requires RedFocus(c, t) && RedTop(c) && IsRed(Sibling(c.up))
    ensures RedFocus(c.up.up, Recolored(c, t)) && Elems(Plug(c.up.up, Recolored(c, t))) == Elems(Plug(c, t))
  {
    Grandparent(c, t);
    var p, s := Above(c, t), Sibling(c.up);
    var g := Above(c.up, p);
    assert Plug(c, t) == Plug(c.up.up, g);
    assert Elems(p) == Elems(p.(red := false)) && Elems(s) == Elems(s.(red := false));
    SameElems(c.up.up, g, Recolored(c, t));
  }

  /** A red child on the outer side of a red parent, on the left: the parent takes the place of the
      grandparent. */
  function RaisedL(c: Ctx): Ctx
    requires c.InL? && c.up.InL?
  {
    InL(c.up.up, c.n, false, T(c.r, c.up.n, true, c.up.r))
  }

  function RaisedR(c: Ctx): Ctx
    requires c.InR? && c.up.InR?
  {
    InR(c.up.up, c.n, false, T(c.up.l, c.up.n, true, c.l))
  }

  lemma RaiseKeepsL(c: Ctx, t: Tree)
    requires c.InL? && c.up.InL?
    ensures Elems(Plug(RaisedL(c), t)) == Elems(Plug(c, t)) && Depth(RaisedL(c)) < Depth(c)
    ensures RedFocus(c, t) && RedTop(c) && !IsRed(c.up.r) ==> RedFocus(RaisedL(c), t)
  {
    PlugElems(c, t);
    PlugElems(RaisedL(c), t);
    if RedFocus(c, t) && RedTop(c) {
      Grandparent(c, t);
    }
  }

  lemma RaiseKeepsR(c: Ctx, t: Tree)
    requires c.InR? && c.up.InR?
    ensures Elems(Plug(RaisedR(c), t)) == Elems(Plug(c, t)) && Depth(RaisedR(c)) < Depth(c)
    ensures RedFocus(c, t) && RedTop(c) && !IsRed(c.up.l) ==> RedFocus(RaisedR(c), t)
  {
    PlugElems(c, t);
    PlugElems(RaisedR(c), t);
    if RedFocus(c, t) && RedTop(c) {
      Grandparent(c, t);
    }
  }

  /** A red child on the inner side becomes the parent. */
  lemma TurnKeepsL(c: Ctx, t: Tree)
    requires RedFocus(c, t) && RedTop(c) && c.InR? && c.up.InL?
    ensures t.red && RedFocus(InL(c.up, t.n, t.red, t.r), T(c.l, c.n, c.red, t.l))
  {
    Grandparent(c, t);
  }

  lemma TurnKeepsR(c: Ctx, t: Tree)
    requires RedFocus(c, t) && RedTop(c) && c.InL? && c.up.InR?
    ensures t.red && RedFocus(InR(c.up, t.n, t.red, t.l), T(t.r, c.n, c.red, c.r))
  {
    Grandparent(c, t);
  }

  lemma RotateKeeps(c: Ctx, t: Tree)
    ensures t.T? && t.r.T? ==> Elems(Plug(c, RotateL(t))) == Elems(Plug(c, t))
    ensures t.T? && t.l.T? ==> Elems(Plug(c, RotateR(t))) == Elems(Plug(c, t))
  {
    RotateElems(t);
    if t.T? && t.r.T? {
      SameElems(c, t, RotateL(t));
    }
    if t.T? && t.l.T? {
      SameElems(c, t, RotateR(t));
    }
  }

  /** When the parent is black or missing, the root may be painted black and the tree is red-black. */
  lemma FocusDone(c: Ctx, t: Tree)
    requires RedFocus(c, t) && !RedTop(c)
    ensures RedBlack(Blacken(Plug(c, t))) && Plug(c, t).T?
  {
    PlugRB(c, t);
    if !c.Top? {
      PlugBlack(c, t);
    }
    PlugIsTree(c, t);
  }

  lemma {:induction false} PlugIsTree(c: Ctx, t: Tree)
    requires t.T? || !c.Top?
    ensures Plug(c, t).T?
    decreases c
  {
    if !c.Top? {
      PlugIsTree(c.up, Above(c, t));
    }
  }

  // ---------- search ----------

  /** The keys grow from left to right. */
  predicate Sorted(s: seq<Node>) {
    forall i, j :: 0 <= i < j < |s| ==> s[i].key < s[j].key
  }

  predicate AllBelow(s: seq<Node>, k: int) {
    forall i :: 0 <= i < |s| ==> s[i].key < k
  }

  predicate AllAbove(s: seq<Node>, k: int) {
    forall i :: 0 <= i < |s| ==> k < s[i].key
  }

  /** What is left of the hole is below the key, and what is right of it above. */
  predicate Around(c: Ctx, k: int) {
    AllBelow(Before(c), k) && AllAbove(After(c), k)
  }

  /** A search goes on to the left. */
  lemma GoLeft(c: Ctx, t: Tree, k: int)
    requires t.T? && Around(c, k) && Sorted(Elems(Plug(c, t))) && k < t.n.key
    ensures Around(InL(c, t.n, t.red, t.r), k)
  {
    PlugElems(c, t);
    SortedParts(Before(c), Elems(t.l), t.n, Elems(t.r), After(c));
  }

  lemma GoRight(c: Ctx, t: Tree, k: int)
    requires t.T? && Around(c, k) && Sorted(Elems(Plug(c, t))) && t.n.key < k
    ensures Around(InR(c, t.n, t.red, t.l), k)
  {
    PlugElems(c, t);
    SortedParts(Before(c), Elems(t.l), t.n, Elems(t.r), After(c));
  }

  lemma SortedParts(b: seq<Node>, l: seq<Node>, n: Node, r: seq<Node>, a: seq<Node>)
    requires Sorted(b + (l + [n] + r) + a)
    ensures AllBelow(l, n.key) && AllAbove(r, n.key)
  {
    var s := b + (l + [n] + r) + a;
    assert s[|b| + |l|] == n;
    forall i | 0 <= i < |l| ensures l[i].key < n.key {
      assert s[|b| + i] == l[i];
    }
    forall i | 0 <= i < |r| ensures n.key < r[i].key {
      assert s[|b| + |l| + 1 + i] == r[i];
    }
  }

  /** A node put into the hole that its key leads to. */
  lemma PutIn(c: Ctx, n: Node)
    requires Around(c, n.key) && Sorted(Elems(Plug(c, Nil)))
    ensures var w, w' := Plug(c, Nil), Plug(c, T(Nil, n, true, Nil));
      && Sorted(Elems(w')) && Inserted(Elems(w), Elems(w'), n)
      && forall i :: 0 <= i < |Elems(w)| ==> Elems(w)[i].key != n.key
  {
    hide After;
    hide Before;
    hide Plug;
    PlugElems(c, Nil);
    PlugElems(c, T(Nil, n, true, Nil));
    var b, a, s := Before(c), After(c), Elems(Plug(c, Nil));
    assert s == b + a && s[..|b|] == b && s[|b|..] == a;
    assert Elems(T(Nil, n, true, Nil)) == [n];
  }

  // ---------- removal ----------

  /** All is well but that the tree in focus is one black node short; painting it black, when it is
      red, makes up for it. */
  predicate Short(c: Ctx, t: Tree) {
    RB(Blacken(t)) && RBC(c, Blacks(t) + 1) && BlackRoot(c)
  }

  /** A short black tree has a sibling with a black node. */
  lemma SiblingExists(c: Ctx, t: Tree)
    requires Short(c, t) && !c.Top? && !IsRed(t)
    ensures var s := Sibling(c);
      && s.T? && RB(t) && RB(s) && Blacks(s) == Blacks(t) + 1
      && (c.red ==> !s.red && !RedTop(c.up)) && RBC(c.up, Blacks(t) + if c.red then 1 else 2)
      && (s.red ==> s.l.T? && s.r.T? && !s.l.red && !s.r.red)
      && (c.up.Top? || BlackRoot(c.up)) && (c.up.Top? ==> !c.red)
  {
  }

  /** A red sibling on the right: it becomes the grandparent, and a black one the sibling. */
  function LoweredL(c: Ctx): Ctx
    requires c.InL? && c.r.T?
  {
    InL(InL(c.up, c.r.n, false, c.r.r), c.n, true, c.r.l)
  }

  function LoweredR(c: Ctx): Ctx
    requires c.InR? && c.l.T?
  {
    InR(InR(c.up, c.l.n, false, c.l.l), c.n, true, c.l.r)
  }

  lemma LoweredElemsL(c: Ctx, t: Tree)
    requires c.InL? && c.r.T?
    ensures Elems(Plug(LoweredL(c), t)) == Elems(Plug(c, t))
  {
    hide Before;
    hide After;
    var t' := Above(LoweredL(c).up, Above(LoweredL(c), t));
    assert Elems(t') == Elems(Above(c, t));
    SameElems(c.up, Above(c, t), t');
  }

  lemma RedSiblingKeepsL(c: Ctx, t: Tree)
    requires Short(c, t) && !IsRed(t) && c.InL? && IsRed(c.r)
    ensures Short(LoweredL(c), t) && c.r.l.T? && !c.r.l.red
    ensures Elems(Plug(LoweredL(c), t)) == Elems(Plug(c, t))
  {
    hide Elems;
    hide Plug;
    SiblingExists(c, t);
    LoweredElemsL(c, t);
    assert RBC(LoweredL(c).up, Blacks(t) + 1) && BlackRoot(LoweredL(c).up);
  }

  lemma LoweredElemsR(c: Ctx, t: Tree)
    requires c.InR? && c.l.T?
    ensures Elems(Plug(LoweredR(c), t)) == Elems(Plug(c, t))
  {
    hide Before;
    hide After;
    var t' := Above(LoweredR(c).up, Above(LoweredR(c), t));
    assert Elems(t') == Elems(Above(c, t));
    SameElems(c.up, Above(c, t), t');
  }

  lemma RedSiblingKeepsR(c: Ctx, t: Tree)
    requires Short(c, t) && !IsRed(t) && c.InR? && IsRed(c.l)
    ensures Short(LoweredR(c), t) && c.l.r.T? && !c.l.r.red
    ensures Elems(Plug(LoweredR(c), t)) == Elems(Plug(c, t))
  {
    hide Elems;
    hide Plug;
    SiblingExists(c, t);
    LoweredElemsR(c, t);
    assert RBC(LoweredR(c).up, Blacks(t) + 1) && BlackRoot(LoweredR(c).up);
  }

  /** A black sibling with black children turns red, and the whole is short. */
  lemma BlackSiblingKeeps(c: Ctx, t: Tree)
    requires Short(c, t) && !IsRed(t) && !c.Top?
    requires var s := Sibling(c); s.T? && !s.red && !IsRed(s.l) && !IsRed(s.r)
    ensures var t' := Above(WithSibling(c, Sibling(c).(red := true)), t);
      Short(c.up, t') && Elems(Plug(c.up, t')) == Elems(Plug(c, t))
  {
    SiblingExists(c, t);
    var t' := Above(WithSibling(c, Sibling(c).(red := true)), t);
    PaintElems(Sibling(c), true);
    SameElems(c.up, Above(c, t), t');
  }

  /** A red inner child of the sibling, on the right, becomes the sibling, with a red outer child. */
  function InnerRaisedL(s: Tree): Tree
    requires s.T? && s.l.T?
  {
    T(s.l.l, s.l.n, false, T(s.l.r, s.n, true, s.r))
  }

  function InnerRaisedR(s: Tree): Tree
    requires s.T? && s.r.T?
  {
    T(T(s.l, s.n, true, s.r.l), s.r.n, false, s.r.r)
  }

  lemma InnerElemsL(c: Ctx, t: Tree)
    requires c.InL? && c.r.T? && c.r.l.T?
    ensures Elems(Plug(WithSibling(c, InnerRaisedL(c.r)), t)) == Elems(Plug(c, t))
  {
    hide Before;
    hide After;
    var s' := InnerRaisedL(c.r);
    assert Elems(s') == Elems(c.r);
    SameElems(c.up, Above(c, t), Above(WithSibling(c, s'), t));
  }

  lemma InnerKeepsL(c: Ctx, t: Tree)
    requires Short(c, t) && !IsRed(t) && c.InL? && c.r.T? && !c.r.red && IsRed(c.r.l) && !IsRed(c.r.r)
    ensures Short(WithSibling(c, InnerRaisedL(c.r)), t)
    ensures Elems(Plug(WithSibling(c, InnerRaisedL(c.r)), t)) == Elems(Plug(c, t))
  {
    hide Elems;
    hide Plug;
    SiblingExists(c, t);
    InnerElemsL(c, t);
    var s' := InnerRaisedL(c.r);
    assert RB(s'.r) && RB(s') && Blacks(s') == Blacks(c.r);
  }

  lemma InnerElemsR(c: Ctx, t: Tree)
    requires c.InR? && c.l.T? && c.l.r.T?
    ensures Elems(Plug(WithSibling(c, InnerRaisedR(c.l)), t)) == Elems(Plug(c, t))
  {
    hide Before;
    hide After;
    var s' := InnerRaisedR(c.l);
    assert Elems(s') == Elems(c.l);
    SameElems(c.up, Above(c, t), Above(WithSibling(c, s'), t));
  }

  lemma InnerKeepsR(c: Ctx, t: Tree)
    requires Short(c, t) && !IsRed(t) && c.InR? && c.l.T? && !c.l.red && IsRed(c.l.r) && !IsRed(c.l.l)
    ensures Short(WithSibling(c, InnerRaisedR(c.l)), t)
    ensures Elems(Plug(WithSibling(c, InnerRaisedR(c.l)), t)) == Elems(Plug(c, t))
  {
    hide Elems;
    hide Plug;
    SiblingExists(c, t);
    InnerElemsR(c, t);
    var s' := InnerRaisedR(c.l);
    assert RB(s'.l) && RB(s') && Blacks(s') == Blacks(c.l);
  }

  /** With a red outer child of the sibling, on the right, a rotation fills up the short tree. */
  function FilledL(c: Ctx, t: Tree): Tree
    requires c.InL? && c.r.T?
  {
    T(T(t, c.n, false, c.r.l), c.r.n, c.red, Blacken(c.r.r))
  }

  function FilledR(c: Ctx, t: Tree): Tree
    requires c.InR? && c.l.T?
  {
    T(Blacken(c.l.l), c.l.n, c.red, T(c.l.r, c.n, false, t))
  }

  lemma FilledElemsL(c: Ctx, t: Tree)
    requires c.InL? && c.r.T? && c.r.r.T?
    ensures Elems(Plug(c.up, FilledL(c, t))) == Elems(Plug(c, t))
  {
    hide Before;
    hide After;
    PaintElems(c.r.r, false);
    assert Elems(FilledL(c, t)) == Elems(Above(c, t));
    SameElems(c.up, Above(c, t), FilledL(c, t));
  }

  lemma FilledKeepsL(c: Ctx, t: Tree)
    requires Short(c, t) && !IsRed(t) && c.InL? && c.r.T? && !c.r.red && IsRed(c.r.r)
    ensures RB(Plug(c.up, FilledL(c, t))) && Elems(Plug(c.up, FilledL(c, t))) == Elems(Plug(c, t))
  {
    hide Elems;
    hide Plug;
    SiblingExists(c, t);
    PlugRB(c.up, FilledL(c, t));
    FilledElemsL(c, t);
  }

  lemma FilledElemsR(c: Ctx, t: Tree)
    requires c.InR? && c.l.T? && c.l.l.T?
    ensures Elems(Plug(c.up, FilledR(c, t))) == Elems(Plug(c, t))
  {
    hide Before;
    hide After;
    PaintElems(c.l.l, false);
    assert Elems(FilledR(c, t)) == Elems(Above(c, t));
    SameElems(c.up, Above(c, t), FilledR(c, t));
  }

  lemma FilledKeepsR(c: Ctx, t: Tree)
    requires Short(c, t) && !IsRed(t) && c.InR? && c.l.T? && !c.l.red && IsRed(c.l.l)
    ensures RB(Plug(c.up, FilledR(c, t))) && Elems(Plug(c.up, FilledR(c, t))) == Elems(Plug(c, t))
  {
    hide Elems;
    hide Plug;
    SiblingExists(c, t);
    PlugRB(c.up, FilledR(c, t));
    FilledElemsR(c, t);
  }

  /** A short tree that is red, or the whole, is painted black, and the tree is red-black. */
  lemma ShortDone(c: Ctx, t: Tree)
    requires Short(c, t) && (IsRed(t) || c.Top?)
    ensures RedBlack(Plug(c, Blacken(t))) && Elems(Plug(c, Blacken(t))) == Elems(Plug(c, t))
  {
    PlugRB(c, Blacken(t));
    PlugBlack(c, Blacken(t));
    SameElems(c, t, Blacken(t));
  }

  lemma {:induction false} RootAbove(c: Ctx, t: Tree)
    requires !c.Top?
    ensures Ptr(Plug(c, t)) != null && Ptr(Plug(c, t)) in NodesC(c)
    decreases c
  {
    if !c.up.Top? {
      RootAbove(c.up, Above(c, t));
    }
  }

  // ---------- taking a node out ----------

  /** Where a node of the tree is. */
  lemma {:induction false} Locate(c0: Ctx, t0: Tree, n: Node) returns (c: Ctx, t: Tree)
    requires n in Nodes(t0)
    ensures Plug(c, t) == Plug(c0, t0) && t.T? && t.n == n
    decreases t0
  {
    if n == t0.n {
      c, t := c0, t0;
    } else if n in Nodes(t0.l) {
      c, t := Locate(InL(c0, t0.n, t0.red, t0.r), t0.l, n);
    } else {
      c, t := Locate(InR(c0, t0.n, t0.red, t0.l), t0.r, n);
    }
  }

  /** The only child, if any, of a node that has not two. */
  function OnlyChild(t: Tree): Tree
    requires t.T? && (t.l.Nil? || t.r.Nil?)
  {
    if t.l.Nil? then t.r else t.l
  }

  lemma SpliceNodes(c: Ctx, t: Tree)
    requires t.T? && (t.l.Nil? || t.r.Nil?) && Proper(Plug(c, t))
    ensures var w, w' := Plug(c, t), Plug(c, OnlyChild(t));
      Proper(w') && Nodes(w') == Nodes(w) - {t.n} && t.n in Nodes(w)
  {
    PlugNodes(c, t);
    PlugNodes(c, OnlyChild(t));
  }

  /** What a node holds after the node of `t` was taken out. */
  lemma SpliceCell(c: Ctx, t: Tree, n: Node)
    requires t.T? && (t.l.Nil? || t.r.Nil?) && Proper(Plug(c, t))
    requires n in Nodes(Plug(c, OnlyChild(t)))
    ensures n in Nodes(Plug(c, t)) && n != t.n
    ensures var o := Cells(Plug(c, t), null)[n]; var t' := OnlyChild(t);
      Cells(Plug(c, t'), null)[n] == WithChild(c, n, WithParent(t', n, o, ParentOf(c)), Ptr(t'))
  {
    hide Cells;
    hide CellsC;
    var t' := OnlyChild(t);
    SpliceNodes(c, t);
    PlugNodes(c, t);
    PlugNodes(c, t');
    UpOne(c, t.l, t.n, t.red, t.r);
    if n in NodesC(c) {
      HoleCell(c, t, t', n);
    } else if t.l.Nil? {
      MovedCell(InR(c, t.n, t.red, t.l), c, Plug(c, t), Plug(c, t'), t', n);
    } else {
      MovedCell(InL(c, t.n, t.red, t.r), c, Plug(c, t), Plug(c, t'), t', n);
    }
  }

  /** Taking out a red node leaves the tree red-black, taking out a black one leaves it short. */
  lemma SpliceColours(c: Ctx, t: Tree)
    requires t.T? && (t.l.Nil? || t.r.Nil?) && RedBlack(Plug(c, t))
    ensures var t' := OnlyChild(t);
      if t.red then RB(t') && RBC(c, Blacks(t')) && !IsRed(t') && BlackRoot(c) && !c.Top? else Short(c, t')
  {
    OpenRB(c, t);
    OpenBlack(c, t);
  }

  lemma RemovedSorted(s: seq<Node>, s': seq<Node>, n: Node)
    requires Removed(s, s', n) && Sorted(s)
    ensures Sorted(s')
  {
  }

  lemma RemovedFrom(b: seq<Node>, n: Node, a: seq<Node>)
    ensures Removed(b + [n] + a, b + a, n)
  {
    var s := b + [n] + a;
    assert s[|b|] == n && s[..|b|] == b && s[|b| + 1..] == a;
  }

  lemma SpliceElems(c: Ctx, t: Tree)
    requires t.T? && (t.l.Nil? || t.r.Nil?)
    ensures Removed(Elems(Plug(c, t)), Elems(Plug(c, OnlyChild(t))), t.n)
  {
    PlugElems(c, t);
    PlugElems(c, OnlyChild(t));
    RemovedFrom(Before(c) + Elems(t.l), t.n, Elems(t.r) + After(c));
    SpliceParts(Before(c), Elems(t.l), [t.n], Elems(t.r), After(c));
  }

  lemma SpliceParts(b: seq<Node>, l: seq<Node>, n: seq<Node>, r: seq<Node>, a: seq<Node>)
    ensures b + (l + n + r) + a == b + l + n + (r + a)
    ensures l == [] ==> b + r + a == b + l + (r + a)
    ensures r == [] ==> b + l + a == b + l + (r + a)
  {
  }

  // ---------- a node in another's place ----------

  lemma RenameNodes(c: Ctx, t: Tree, n: Node)
    requires t.T? && Proper(Plug(c, t)) && n !in Nodes(Plug(c, t))
    ensures var w, w' := Plug(c, t), Plug(c, t.(n := n));
      Proper(w') && Nodes(w') == Nodes(w) - {t.n} + {n} && t.n in Nodes(w)
  {
    PlugNodes(c, t);
    PlugNodes(c, t.(n := n));
  }

  /** What a node holds when `m` has taken the place of the node of `t`. */
  lemma RenameCell(c: Ctx, t: Tree, m: Node, n: Node)
    requires t.T? && Proper(Plug(c, t)) && m !in Nodes(Plug(c, t)) && n in Nodes(Plug(c, t.(n := m)))
    ensures n == m ==> Cells(Plug(c, t.(n := m)), null)[n] == Cell(Ptr(t.l), Ptr(t.r), ParentOf(c), t.red)
    ensures n != m ==> n in Nodes(Plug(c, t))
    ensures n != m ==>
              var o := Cells(Plug(c, t), null)[n];
              Cells(Plug(c, t.(n := m)), null)[n] == WithChild(c, n, WithParent(t.l, n, WithParent(t.r, n, o, m), m), m)
  {
    hide Cells;
    hide CellsC;
    var t' := t.(n := m);
    RenameNodes(c, t, m);
    PlugNodes(c, t);
    PlugNodes(c, t');
    UpOne(c, t.l, t.n, t.red, t.r);
    UpOne(c, t.l, m, t.red, t.r);
    if n == m {
      FocusCell(c, t');
    } else if n in NodesC(c) {
      HoleCell(c, t, t', n);
    } else if n in Nodes(t.l) {
      MovedCell(InL(c, t.n, t.red, t.r), InL(c, m, t.red, t.r), Plug(c, t), Plug(c, t'), t.l, n);
    } else {
      MovedCell(InR(c, t.n, t.red, t.l), InR(c, m, t.red, t.l), Plug(c, t), Plug(c, t'), t.r, n);
    }
  }

  /** The same by what node it is: a child of the replaced node, its parent, or any other. */
  lemma RenamedCell(c: Ctx, t: Tree, m: Node, n: Node)
    requires t.T? && Proper(Plug(c, t)) && m !in Nodes(Plug(c, t)) && n in Nodes(Plug(c, t.(n := m)))
    ensures n == m ==> Cells(Plug(c, t.(n := m)), null)[n] == Cell(Ptr(t.l), Ptr(t.r), ParentOf(c), t.red)
    ensures n != m ==> n in Nodes(Plug(c, t))
    ensures n != m ==>
              var o := Cells(Plug(c, t), null)[n];
              Cells(Plug(c, t.(n := m)), null)[n] ==
                if n == Ptr(t.l) || n == Ptr(t.r) then o.(parent := m)
                else if n != ParentOf(c) then o
                else if c.InL? then o.(left := m)
                else o.(right := m)
  {
    hide Cells;
    RenameCell(c, t, m, n);
    PlugNodes(c, t);
    ChildrenApart(c, t);
  }

  lemma ChildrenApart(c: Ctx, t: Tree)
    requires t.T? && Proper(Plug(c, t))
    ensures t.l.T? ==> t.l.n != Ptr(t.r) && t.l.n != ParentOf(c)
    ensures t.r.T? ==> t.r.n != ParentOf(c)
  {
    hide Plug;
    PlugNodes(c, t);
  }

  // ---------- contexts within contexts ----------

  /** The hole of `base` holds all of `inner`. */
  function Over(inner: Ctx, base: Ctx): Ctx {
    match inner
    case Top => base
    case InL(up, n, red, r) => InL(Over(up, base), n, red, r)
    case InR(up, n, red, l) => InR(Over(up, base), n, red, l)
  }

  lemma {:induction false} OverPlug(inner: Ctx, base: Ctx, t: Tree)
    ensures Plug(Over(inner, base), t) == Plug(base, Plug(inner, t))
    decreases inner
  {
    if !inner.Top? {
      OverPlug(inner.up, base, Above(inner, t));
    }
  }

  /** The colours do not depend on which node is at the base. */
  lemma {:induction false} OverColours(inner: Ctx, up: Ctx, n: Node, m: Node, red: bool, l: Tree, h: nat)
    ensures var c, c' := Over(inner, InR(up, n, red, l)), Over(inner, InR(up, m, red, l));
      && (RBC(c, h) <==> RBC(c', h)) && (RedTop(c) <==> RedTop(c')) && (BlackRoot(c) <==> BlackRoot(c'))
      && !c.Top? && !c'.Top?
    decreases inner
  {
    if !inner.Top? {
      OverColours(inner.up, up, n, m, red, l, h + if inner.red then 0 else 1);
    }
  }

  /** On the way to the least node one goes to the left only. */
  predicate OnlyLeft(c: Ctx) {
    c.Top? || (c.InL? && OnlyLeft(c.up))
  }

  lemma {:induction false} OnlyLeftBefore(c: Ctx)
    requires OnlyLeft(c)
    ensures Before(c) == []
  {
    if !c.Top? {
      OnlyLeftBefore(c.up);
    }
  }

  /** The successor in the place of a node, and taken out from its own. */
  lemma SuccessorElems(c: Ctx, t: Tree, inner: Ctx, m: Tree)
    requires t.T? && OnlyLeft(inner) && m.T? && m.l.Nil? && t.r == Plug(inner, m)
    ensures Removed(Elems(Plug(c, t)), Elems(Plug(c, T(t.l, m.n, t.red, Plug(inner, m.r)))), t.n)
  {
    var t' := T(t.l, m.n, t.red, Plug(inner, m.r));
    OnlyLeftBefore(inner);
    PlugElems(inner, m);
    PlugElems(inner, m.r);
    PlugElems(c, t);
    PlugElems(c, t');
    var b, a := Before(c) + Elems(t.l), [m.n] + Elems(m.r) + After(inner) + After(c);
    RemovedFrom(b, t.n, a);
    SuccessorParts(Before(c), Elems(t.l), t.n, [m.n], Elems(m.r), After(inner), After(c));
  }

  lemma SuccessorParts(b: seq<Node>, l: seq<Node>, n: Node, m: seq<Node>, r: seq<Node>, i: seq<Node>, a: seq<Node>)
    ensures b + (l + [n] + ([] + ([] + m + r) + i)) + a == b + l + [n] + (m + r + i + a)
    ensures b + (l + m + ([] + r + i)) + a == b + l + (m + r + i + a)
  {
  }
}
