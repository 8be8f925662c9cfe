/** The binary min heap of libuv-dll/src/heap-inl.h as a sequence: the node at position `i` is the parent
    of the nodes at `2i` and `2i + 1`.
  */
module HeapSpec {
  import opened Bits

  class Node {
    const key: int
    var left: Node?
    var right: Node?
    var parent: Node?

    constructor (k: int)
      ensures key == k
    {
      key := k;
      left, right, parent := null, null, null;
    }
  }

  datatype Cell = Cell(left: Node?, right: Node?, parent: Node?)

  /** The node at position `i`, counted from one. */
  function At(s: seq<Node>, i: nat): Node? {
    if 1 <= i <= |s| then s[i - 1] else null
  }

  /** What the node at position `i` holds. */
  function CellOf(s: seq<Node>, i: nat): Cell {
    Cell(At(s, 2 * i), At(s, 2 * i + 1), At(s, i / 2))
  }

  predicate Distinct(s: seq<Node>) {
    forall i, j :: 0 <= i < j < |s| ==> s[i] != s[j]
  }

  function Members(s: seq<Node>): set<Node> {
    set n | n in s
  }

  // ---------- order ----------

  /** The key at position `i`. */
  function Key(s: seq<Node>, i: nat): int
    requires 1 <= i <= |s|
  {
    s[i - 1].key
  }

  predicate Above(s: seq<Node>, i: nat)
    requires 2 <= i <= |s|
  {
    Key(s, i / 2) <= Key(s, i)
  }

  /** No node is less than its parent. */
  predicate Ordered(s: seq<Node>) {
    forall i {:trigger Above(s, i)} :: 2 <= i <= |s| ==> Above(s, i)
  }

  /** The node at `p` may be less than its parent; what is below it is not. */
  predicate OrderedUp(s: seq<Node>, p: nat) {
    && 1 <= p <= |s|
    && (forall i {:trigger Above(s, i)} :: 2 <= i <= |s| && i != p ==> Above(s, i))
    && Bridged(s, p)
  }

  /** The node at `p` may be less than its parent or greater than its children. */
  predicate OrderedDown(s: seq<Node>, p: nat) {
    && 1 <= p <= |s|
    && (forall i {:trigger Above(s, i)} :: 2 <= i <= |s| && i != p && i / 2 != p ==> Above(s, i))
    && Bridged(s, p)
  }

  /** What is below `p` is not less than what is above it. */
  predicate Bridged(s: seq<Node>, p: nat)
    requires 1 <= p <= |s|
  {
    p >= 2 ==>
      && (2 * p <= |s| ==> Key(s, p / 2) <= Key(s, 2 * p))
      && (2 * p + 1 <= |s| ==> Key(s, p / 2) <= Key(s, 2 * p + 1))
  }

  /** The first node is a least one. */
  lemma {:induction false} FirstIsLeast(s: seq<Node>, i: nat)
    requires Ordered(s) && 1 <= i <= |s|
    ensures Key(s, 1) <= Key(s, i)
    decreases i
  {
    if i > 1 {
      assert Above(s, i);
      FirstIsLeast(s, i / 2);
    }
  }

  // ---------- swapping ----------

  function Swapped(s: seq<Node>, p: nat, c: nat): (r: seq<Node>)
    requires 1 <= p <= |s| && 1 <= c <= |s|
    ensures |r| == |s|
  {
    s[p - 1 := s[c - 1]][c - 1 := s[p - 1]]
  }

  function Exchange(n: Node?, a: Node, b: Node): Node? {
    if n == a then b else if n == b then a else n
  }

  lemma SwapAt(s: seq<Node>, p: nat, c: nat, i: nat)
    requires Distinct(s) && 1 <= p <= |s| && 1 <= c <= |s| && p != c
    ensures At(Swapped(s, p, c), i) == Exchange(At(s, i), s[p - 1], s[c - 1])
  {
  }

  /** After the exchange, a node holds what the node in its new place held, with both exchanged. */
  lemma SwapCell(s: seq<Node>, p: nat, c: nat, i: nat)
    requires Distinct(s) && 1 <= p <= |s| && 1 <= c <= |s| && p != c
    ensures var o, a, b := CellOf(s, i), s[p - 1], s[c - 1];
      CellOf(Swapped(s, p, c), i) == Cell(Exchange(o.left, a, b), Exchange(o.right, a, b), Exchange(o.parent, a, b))
  {
    SwapAt(s, p, c, 2 * i);
    SwapAt(s, p, c, 2 * i + 1);
    SwapAt(s, p, c, i / 2);
  }

  /** The position of the other child. */
  function Beside(c: nat): nat
    requires c >= 1
  {
    if c % 2 == 0 then c + 1 else c - 1
  }

  /** What the node at position `i` holds after a node has changed places with its child. */
  lemma SwapChild(s: seq<Node>, p: nat, c: nat, i: nat)
    requires Distinct(s) && 1 <= p && p == c / 2 && c <= |s| && 1 <= i <= |s|
    ensures var o, a, b := CellOf(s, i), s[p - 1], s[c - 1];
      CellOf(Swapped(s, p, c), i) ==
        if i == c then Cell(o.left, o.right, b)
        else if i == p then (if c == 2 * p then Cell(a, o.right, o.parent) else Cell(o.left, a, o.parent))
        else if i == Beside(c) then Cell(o.left, o.right, b)
        else if i / 2 == c then Cell(o.left, o.right, a)
        else if i == p / 2 then (if p == 2 * i then Cell(b, o.right, o.parent) else Cell(o.left, b, o.parent))
        else o
  {
    SwapCell(s, p, c, i);
  }

  lemma SwapMembers(s: seq<Node>, p: nat, c: nat)
    requires Distinct(s) && 1 <= p <= |s| && 1 <= c <= |s| && p != c
    ensures Distinct(Swapped(s, p, c)) && Members(Swapped(s, p, c)) == Members(s)
  {
    var r := Swapped(s, p, c);
    assert r[p - 1] == s[c - 1] && r[c - 1] == s[p - 1];
    forall n ensures n in r <==> n in s {
      if n in s {
        var i :| 0 <= i < |s| && s[i] == n;
        assert r[if i == p - 1 then c - 1 else if i == c - 1 then p - 1 else i] == n;
      }
    }
  }

  /** A node less than its parent moves up. */
  lemma SwapUp(s: seq<Node>, p: nat)
    requires OrderedUp(s, p) && p >= 2 && Key(s, p) < Key(s, p / 2)
    ensures OrderedUp(Swapped(s, p / 2, p), p / 2)
  {
    var r, q := Swapped(s, p / 2, p), p / 2;
    forall i {:trigger Above(r, i)} | 2 <= i <= |r| && i != q ensures Above(r, i) {
      if i == p {
      } else {
        assert Above(s, i);
        if q >= 2 {
          assert Above(s, q);
        }
      }
    }
    if q >= 2 {
      assert Above(s, q);
      if 2 * q <= |s| && 2 * q != p {
        assert Above(s, 2 * q);
      }
      if 2 * q + 1 <= |s| && 2 * q + 1 != p {
        assert Above(s, 2 * q + 1);
      }
    }
  }

  /** A node greater than the lesser of its children moves down. */
  lemma SwapDown(s: seq<Node>, p: nat, c: nat)
    requires OrderedDown(s, p) && p + p <= c <= p + p + 1 && c <= |s| && Key(s, c) < Key(s, p)
    requires 2 * p <= |s| ==> Key(s, c) <= Key(s, 2 * p)
    requires 2 * p + 1 <= |s| ==> Key(s, c) <= Key(s, 2 * p + 1)
    ensures OrderedDown(Swapped(s, p, c), c)
  {
    var r := Swapped(s, p, c);
    forall i {:trigger Above(r, i)} | 2 <= i <= |r| && i != c && i / 2 != c ensures Above(r, i) {
      if i != p && i / 2 != p {
        assert Above(s, i);
      }
    }
    if 2 * c <= |s| {
      assert Above(s, 2 * c);
    }
    if 2 * c + 1 <= |s| {
      assert Above(s, 2 * c + 1);
    }
  }

  // ---------- growing, shrinking, replacing ----------

  lemma AppendCell(s: seq<Node>, x: Node, i: nat)
    requires 1 <= i <= |s| + 1
    ensures var n, o := |s| + 1, CellOf(s, i);
      CellOf(s + [x], i) ==
        if i == n then Cell(null, null, At(s, n / 2))
        else if i == n / 2 then (if n % 2 == 0 then Cell(x, o.right, o.parent) else Cell(o.left, x, o.parent))
        else o
  {
  }

  lemma AppendKeeps(s: seq<Node>, x: Node)
    requires Distinct(s) && Ordered(s) && x !in s
    ensures Distinct(s + [x]) && Members(s + [x]) == Members(s) + {x} && OrderedUp(s + [x], |s| + 1)
  {
    var r := s + [x];
    forall i {:trigger Above(r, i)} | 2 <= i <= |r| && i != |r| ensures Above(r, i) {
      assert Above(s, i);
    }
  }

  lemma DropCell(s: seq<Node>, i: nat)
    requires 1 <= i < |s|
    ensures var n, o := |s|, CellOf(s, i);
      CellOf(s[..n - 1], i) ==
        if i == n / 2 then (if n % 2 == 0 then Cell(null, o.right, o.parent) else Cell(o.left, null, o.parent)) else o
  {
  }

  lemma DropKeeps(s: seq<Node>)
    requires Distinct(s) && Ordered(s) && s != []
    ensures var r, x := s[..|s| - 1], s[|s| - 1];
      Distinct(r) && Ordered(r) && x !in r && Members(r) == Members(s) - {x} && s == r + [x]
  {
    var r, x := s[..|s| - 1], s[|s| - 1];
    forall i {:trigger Above(r, i)} | 2 <= i <= |r| ensures Above(r, i) {
      assert Above(s, i);
    }
    assert s == r + [x];
  }

  lemma ReplaceCell(s: seq<Node>, j: nat, x: Node, i: nat)
    requires Distinct(s) && 1 <= j <= |s| && 1 <= i <= |s|
    ensures var o := CellOf(s, i);
      CellOf(s[j - 1 := x], i) ==
        if i / 2 == j then Cell(o.left, o.right, x)
        else if i == j / 2 then (if j % 2 == 0 then Cell(x, o.right, o.parent) else Cell(o.left, x, o.parent))
        else o
  {
  }

  lemma ReplaceKeeps(s: seq<Node>, j: nat, x: Node)
    requires Distinct(s) && Ordered(s) && 1 <= j <= |s| && x !in s
    ensures var r := s[j - 1 := x];
      Distinct(r) && OrderedDown(r, j) && Members(r) == Members(s) - {s[j - 1]} + {x}
  {
    var r := s[j - 1 := x];
    forall i {:trigger Above(r, i)} | 2 <= i <= |r| && i != j && i / 2 != j ensures Above(r, i) {
      assert Above(s, i);
    }
    if j >= 2 {
      assert Above(s, j);
      if 2 * j <= |s| {
        assert Above(s, 2 * j);
      }
      if 2 * j + 1 <= |s| {
        assert Above(s, 2 * j + 1);
      }
    }
    forall n ensures n in r <==> n in Members(s) - {s[j - 1]} + {x} {
      if n in s && n != s[j - 1] {
        var i :| 0 <= i < |s| && s[i] == n;
        assert r[i] == n;
      }
      assert r[j - 1] == x;
    }
  }

  /** A node not greater than its children has gone down far enough. */
  lemma DownDone(s: seq<Node>, p: nat)
    requires OrderedDown(s, p)
    requires 2 * p <= |s| ==> Key(s, p) <= Key(s, 2 * p)
    requires 2 * p + 1 <= |s| ==> Key(s, p) <= Key(s, 2 * p + 1)
    ensures OrderedUp(s, p)
  {
    forall i {:trigger Above(s, i)} | 2 <= i <= |s| && i != p ensures Above(s, i) {
      assert i / 2 == p ==> i == 2 * p || i == 2 * p + 1;
    }
  }

  /** A node not less than its parent has gone up far enough. */
  lemma UpDone(s: seq<Node>, p: nat)
    requires OrderedUp(s, p) && (p >= 2 ==> Key(s, p / 2) <= Key(s, p))
    ensures Ordered(s)
  {
    forall i {:trigger Above(s, i)} | 2 <= i <= |s| ensures Above(s, i) {
    }
  }
}
