/** The intrusive circular list of libuv-dll/src/queue.h. */
module Queue {
  class Node {
    var next: Node
    var prev: Node

    /** QUEUE_INIT */
    constructor ()
      ensures next == this && prev == this
    {
      next, prev := this, this;
    }
  }

  /** The node at position `i` of the ring: the head before the first and after the last. */
  function At(h: Node, s: seq<Node>, i: int): Node {
    if 0 <= i < |s| then s[i] else h
  }

  predicate Distinct(h: Node, s: seq<Node>) {
    h !in s && forall i, j :: 0 <= i < j < |s| ==> s[i] != s[j]
  }

  function Members(h: Node, s: seq<Node>): set<Node> {
    {h} + set n | n in s
  }

  /** The nodes `s` are linked in a circle behind the head `h`, both ways. */
  ghost predicate Ring(h: Node, s: seq<Node>)
    reads h, s
  {
    && Distinct(h, s)
    && (forall i {:trigger At(h, s, i)} :: -1 <= i < |s| ==> At(h, s, i).next == At(h, s, i + 1))
    && (forall i {:trigger At(h, s, i)} :: 0 <= i <= |s| ==> At(h, s, i).prev == At(h, s, i - 1))
  }

  /** The next node of the one at a position, and the one before. */
  lemma Look(h: Node, s: seq<Node>, i: int)
    requires Ring(h, s) && -1 <= i <= |s|
    ensures i < |s| ==> At(h, s, i).next == At(h, s, i + 1)
    ensures i >= 0 ==> At(h, s, i).prev == At(h, s, i - 1)
    ensures h.next == At(h, s, 0) && h.prev == At(h, s, |s| - 1)
  {
    assert At(h, s, -1) == h && At(h, s, |s|) == h;
  }

  /** QUEUE_EMPTY */
  method IsEmpty(h: Node, ghost s: seq<Node>) returns (b: bool)
    requires Ring(h, s)
    ensures b <==> s == []
  {
    Look(h, s, -1);
    b := h == h.next;
  }

  /** QUEUE_INIT */
  method Init(h: Node)
    modifies h
    ensures Ring(h, [])
  {
    h.next, h.prev := h, h;
  }

  /** The links that a ring needs at a position. */
  ghost predicate Linked(h: Node, s: seq<Node>, i: int)
    reads At(h, s, i), At(h, s, i + 1)
  {
    At(h, s, i).next == At(h, s, i + 1) && At(h, s, i + 1).prev == At(h, s, i)
  }

  lemma Links(h: Node, s: seq<Node>, i: int)
    requires Ring(h, s) && -1 <= i < |s|
    ensures Linked(h, s, i)
  {
    Look(h, s, i);
    Look(h, s, i + 1);
  }

  lemma AllLinked(h: Node, s: seq<Node>)
    requires Ring(h, s)
    ensures Distinct(h, s) && forall i {:trigger Linked(h, s, i)} :: -1 <= i < |s| ==> Linked(h, s, i)
  {
    forall i {:trigger Linked(h, s, i)} | -1 <= i < |s| ensures Linked(h, s, i) {
      Links(h, s, i);
    }
  }

  /** A ring is linked at each position. */
  lemma IsRing(h: Node, s: seq<Node>)
    requires Distinct(h, s) && forall i {:trigger Linked(h, s, i)} :: -1 <= i < |s| ==> Linked(h, s, i)
    ensures Ring(h, s)
  {
    forall i {:trigger At(h, s, i)} | -1 <= i < |s| ensures At(h, s, i).next == At(h, s, i + 1) {
      assert Linked(h, s, i);
    }
    forall i {:trigger At(h, s, i)} | 0 <= i <= |s| ensures At(h, s, i).prev == At(h, s, i - 1) {
      assert Linked(h, s, i - 1);
    }
  }

  /** Where the nodes of two lists are when the one is behind the other. */
  lemma AtBoth(h: Node, s: seq<Node>, n: Node, t: seq<Node>, i: int)
    requires t != []
    ensures -1 <= i < |s| ==> At(h, s + t, i) == At(h, s, i)
    ensures |s| <= i < |s| + |t| ==> At(h, s + t, i) == At(n, t, i - |s|)
    ensures At(h, s + t, |s| + |t|) == h
  {
  }

  lemma BothDistinct(h: Node, s: seq<Node>, n: Node, t: seq<Node>)
    requires Distinct(h, s) && Distinct(n, t) && Members(h, s) !! Members(n, t)
    ensures Distinct(h, s + t)
  {
    forall i, j | 0 <= i < j < |s + t| ensures (s + t)[i] != (s + t)[j] {
      if i < |s| <= j {
        assert s[i] in Members(h, s) && t[j - |s|] in Members(n, t);
      }
    }
    assert h in Members(h, s);
    assert forall x :: x in t ==> x in Members(n, t);
  }

  /** A node is at one position only, and in one list only. */
  lemma OnePlace(h: Node, s: seq<Node>, i: int, j: int)
    requires Distinct(h, s) && -1 <= i < |s| && -1 <= j < |s| && i != j
    ensures At(h, s, i) != At(h, s, j)
  {
  }

  lemma OneList(h: Node, s: seq<Node>, n: Node, t: seq<Node>, i: int, j: int)
    requires Members(h, s) !! Members(n, t)
    ensures At(h, s, i) in Members(h, s) && At(n, t, j) in Members(n, t) && At(h, s, i) != At(n, t, j)
  {
  }

  lemma EndsMeet(h: Node, s: seq<Node>)
    requires Distinct(h, s)
    ensures At(h, s, 0) == h <==> s == []
    ensures At(h, s, |s| - 1) == h <==> s == []
    ensures At(h, s, |s|) == h == At(h, s, -1)
  {
  }

  /** The assignments of QUEUE_ADD. */
  method RelinkAdd(h: Node, n: Node, last: Node, first: Node, end: Node)
    requires last == h.prev && first == n.next && end == n.prev && last.next == h && (first == n <==> end == n)
    requires n != h && n != last && first != h && first != last && end != h && end != last
    modifies h, n, last, first, end
    ensures first == n ==> h.prev == last && last.next == h && (h != last ==> h.next == old(h.next) && last.prev == old(last.prev))
    ensures first != n ==> last.next == first && first.prev == last && h.prev == end && end.next == h
    ensures first != n && h != last ==> h.next == old(h.next) && last.prev == old(last.prev)
    ensures first != n && first != end ==> first.next == old(first.next) && end.prev == old(end.prev)
  {
    h.prev.next := n.next;
    n.next.prev := h.prev;
    h.prev := n.prev;
    h.prev.next := h;
  }

  /** QUEUE_ADD: the list of `n` comes behind that of `h`; `n` is not a list any more. */
  method Add(h: Node, n: Node, ghost s: seq<Node>, ghost t: seq<Node>)
    requires Ring(h, s) && Ring(n, t) && Members(h, s) !! Members(n, t)
    modifies Members(h, s) + Members(n, t)
    ensures Ring(h, s + t)
  {
    hide Distinct;
    hide Ring;
    Look(h, s, |s|);
    Look(n, t, |t|);
    AllLinked(h, s);
    AllLinked(n, t);
    BothDistinct(h, s, n, t);
    assert Linked(h, s, |s| - 1);
    EndsMeet(n, t);
    OneList(h, s, n, t, |s| - 1, 0);
    OneList(h, s, n, t, -1, |t| - 1);
    OneList(h, s, n, t, |s| - 1, |t| - 1);
    RelinkAdd(h, n, h.prev, n.next, n.prev);
    if t == [] {
      assert s + t == s;
      forall i {:trigger Linked(h, s, i)} | -1 <= i < |s| ensures Linked(h, s, i) {
        assert old(Linked(h, s, i));
      }
      IsRing(h, s);
    } else {
      forall i {:trigger Linked(h, s + t, i)} | -1 <= i < |s + t| ensures Linked(h, s + t, i) {
        AtBoth(h, s, n, t, i);
        AtBoth(h, s, n, t, i + 1);
        Apart(h, s, n, t, i);
        assert i < |s| ==> old(Linked(h, s, i));
        assert i >= |s| ==> old(Linked(n, t, i - |s|));
      }
      IsRing(h, s + t);
    }
  }

  /** The nodes around position `i` of both lists are none of those at the ends of the lists, unless they
      are at the ends. */
  lemma Apart(h: Node, s: seq<Node>, n: Node, t: seq<Node>, i: int)
    requires Distinct(h, s) && Distinct(n, t) && Members(h, s) !! Members(n, t) && t != [] && -1 <= i < |s| + |t|
    ensures i < |s| - 1 ==> At(h, s, i) != At(h, s, |s| - 1) && At(h, s, i + 1) != h
    ensures i < |s| - 1 ==> At(h, s, i) != At(n, t, |t| - 1) && At(h, s, i + 1) != At(n, t, 0)
    ensures |s| <= i < |s| + |t| - 1 ==> At(n, t, i - |s|) != At(n, t, |t| - 1) && At(n, t, i - |s| + 1) != At(n, t, 0)
    ensures |s| <= i < |s| + |t| - 1 ==> At(n, t, i - |s|) != At(h, s, |s| - 1) && At(n, t, i - |s| + 1) != h
  {
    if i < |s| - 1 {
      OnePlace(h, s, i, |s| - 1);
      OnePlace(h, s, i + 1, -1);
      OneList(h, s, n, t, i, |t| - 1);
      OneList(h, s, n, t, i + 1, 0);
    } else if |s| <= i < |s| + |t| - 1 {
      OnePlace(n, t, i - |s|, |t| - 1);
      OnePlace(n, t, i - |s| + 1, 0);
      OneList(h, s, n, t, |s| - 1, i - |s|);
      OneList(h, s, n, t, -1, i - |s| + 1);
    }
  }

  /** The assignments of QUEUE_SPLIT. */
  method RelinkSplit(h: Node, q: Node, n: Node, last: Node, before: Node)
    requires last == h.prev && before == q.prev && h != q && n != h && n != q && n != last && n != before
    requires last != before && last != h
    modifies h, q, n, last, before
    ensures n.next == q && n.prev == last && last.next == n && h.prev == before && before.next == h && q.prev == n
    ensures (q != last && q != before ==> q.next == old(q.next)) && (h != before ==> h.next == old(h.next))
    ensures (last != q ==> last.prev == old(last.prev)) && (before != h && before != q ==> before.prev == old(before.prev))
  {
    n.prev := h.prev;
    n.prev.next := n;
    n.next := q;
    h.prev := q.prev;
    h.prev.next := h;
    q.prev := n;
  }

  /** QUEUE_SPLIT: cut the list at `q`; the rest becomes the list of `n`. */
  method Split(h: Node, q: Node, n: Node, ghost s: seq<Node>, ghost k: nat)
    requires Ring(h, s) && k < |s| && q == s[k] && n !in Members(h, s)
    modifies Members(h, s) + {n}
    ensures Ring(h, s[..k]) && Ring(n, s[k..])
  {
    hide Distinct;
    hide Ring;
    hide Members;
    Look(h, s, |s|);
    Look(h, s, k);
    AllLinked(h, s);
    PartsDistinct(h, s, n, k);
    RelinkSplit(h, q, n, h.prev, q.prev);
    forall i {:trigger Linked(h, s[..k], i)} | -1 <= i < k ensures Linked(h, s[..k], i) {
      assert old(Linked(h, s, i));
      Cut(h, s, n, k, i);
    }
    IsRing(h, s[..k]);
    forall i {:trigger Linked(n, s[k..], i)} | -1 <= i < |s| - k ensures Linked(n, s[k..], i) {
      assert old(Linked(h, s, k + i));
      Cut(h, s, n, k, k + i);
    }
    IsRing(n, s[k..]);
  }

  lemma PartsDistinct(h: Node, s: seq<Node>, n: Node, k: nat)
    requires Distinct(h, s) && k < |s| && n !in Members(h, s)
    ensures Distinct(h, s[..k]) && Distinct(n, s[k..]) && n != h && n !in s
    ensures h in Members(h, s) && s[k] in Members(h, s) && At(h, s, k - 1) in Members(h, s) && At(h, s, |s| - 1) in Members(h, s)
  {
  }

  /** Where the nodes around a position are after a cut, and which of them the cut touches. */
  lemma Cut(h: Node, s: seq<Node>, n: Node, k: nat, i: int)
    requires Distinct(h, s) && k < |s| && n !in Members(h, s) && -1 <= i < |s|
    ensures i < k ==> At(h, s[..k], i) == At(h, s, i)
    ensures i + 1 < k ==> At(h, s[..k], i + 1) == At(h, s, i + 1) && At(h, s, i + 1) != h
    ensures i + 1 == k ==> At(h, s[..k], i + 1) == h
    ensures k <= i ==> At(n, s[k..], i - k) == At(h, s, i)
    ensures k <= i + 1 < |s| ==> At(n, s[k..], i + 1 - k) == At(h, s, i + 1)
    ensures At(n, s[k..], -1) == n == At(n, s[k..], |s| - k)
    ensures i != k - 1 ==> At(h, s, i) != At(h, s, k - 1)
    ensures i != |s| - 1 ==> At(h, s, i) != At(h, s, |s| - 1)
    ensures i + 1 != k ==> At(h, s, i + 1) != s[k]
    ensures 0 <= i + 1 < |s| ==> At(h, s, i + 1) != h
    ensures At(h, s, i) != n && At(h, s, i + 1) != n
  {
  }

  /** QUEUE_MOVE: all of the list of `h` becomes the list of `n`. */
  method Move(h: Node, n: Node, ghost s: seq<Node>)
    requires Ring(h, s) && n !in Members(h, s)
    modifies Members(h, s) + {n}
    ensures Ring(h, []) && Ring(n, s)
  {
    var empty := IsEmpty(h, s);
    if empty {
      Init(n);
    } else {
      Look(h, s, -1);
      var q := h.next;
      Split(h, q, n, s, 0);
      assert s[..0] == [] && s[0..] == s;
    }
  }

  /** Splitting a list and adding the parts again gives the list back. */
  method SplitAdd(h: Node, q: Node, n: Node, ghost s: seq<Node>, ghost k: nat)
    requires Ring(h, s) && k < |s| && q == s[k] && n !in Members(h, s)
    modifies Members(h, s) + {n}
    ensures Ring(h, s)
  {
    hide Members;
    hide Distinct;
    Halves(h, s, n, k);
    Split(h, q, n, s, k);
    Add(h, n, s[..k], s[k..]);
  }

  lemma Halves(h: Node, s: seq<Node>, n: Node, k: nat)
    requires Ring(h, s) && k < |s| && n !in Members(h, s)
    ensures Members(h, s[..k]) !! Members(n, s[k..]) && Members(h, s[..k]) + Members(n, s[k..]) <= Members(h, s) + {n}
    ensures s[..k] + s[k..] == s
  {
  }

  /** QUEUE_INSERT_HEAD */
  method InsertHead(h: Node, q: Node, ghost s: seq<Node>)
    requires Ring(h, s) && q !in Members(h, s)
    modifies Members(h, s) + {q}
    ensures Ring(h, [q] + s)
  {
    hide Distinct;
    Look(h, s, -1);
    AllLinked(h, s);
    PutDistinct(h, s, q, 0);
    q.next := h.next;
    q.prev := h;
    q.next.prev := q;
    h.next := q;
    forall i {:trigger Linked(h, [q] + s, i)} | -1 <= i < |s| + 1 ensures Linked(h, [q] + s, i) {
      assert i >= 0 ==> old(Linked(h, s, i - 1));
      Put(h, s, q, 0, i);
    }
    IsRing(h, [q] + s);
  }

  /** QUEUE_INSERT_TAIL */
  method InsertTail(h: Node, q: Node, ghost s: seq<Node>)
    requires Ring(h, s) && q !in Members(h, s)
    modifies Members(h, s) + {q}
    ensures Ring(h, s + [q])
  {
    hide Distinct;
    Look(h, s, |s|);
    AllLinked(h, s);
    PutDistinct(h, s, q, |s|);
    q.next := h;
    q.prev := h.prev;
    q.prev.next := q;
    h.prev := q;
    forall i {:trigger Linked(h, s + [q], i)} | -1 <= i < |s| + 1 ensures Linked(h, s + [q], i) {
      assert i < |s| ==> old(Linked(h, s, i));
      Put(h, s, q, |s|, i);
    }
    IsRing(h, s + [q]);
  }

  lemma PutDistinct(h: Node, s: seq<Node>, q: Node, k: nat)
    requires Distinct(h, s) && q !in Members(h, s) && k <= |s|
    ensures Distinct(h, s[..k] + [q] + s[k..])
    ensures k == 0 ==> s[..k] + [q] + s[k..] == [q] + s
    ensures k == |s| ==> s[..k] + [q] + s[k..] == s + [q]
    ensures At(h, s, 0) in Members(h, s) && At(h, s, |s| - 1) in Members(h, s) && h in Members(h, s)
  {
  }

  /** Where the nodes around a position are when `q` is put in at the head or the tail. */
  lemma Put(h: Node, s: seq<Node>, q: Node, k: nat, i: int)
    requires Distinct(h, s) && q !in Members(h, s) && (k == 0 || k == |s|) && -1 <= i <= |s|
    ensures k == 0 ==> At(h, [q] + s, i) == (if i == 0 then q else if i == -1 then h else At(h, s, i - 1))
    ensures k == 0 ==> At(h, [q] + s, i + 1) == if i + 1 == 0 then q else At(h, s, i)
    ensures k == |s| ==> At(h, s + [q], i) == if i == |s| then q else At(h, s, i)
    ensures k == |s| ==> At(h, s + [q], i + 1) == if i + 1 == |s| then q else if i == |s| then h else At(h, s, i + 1)
    ensures 0 <= i < |s| ==> At(h, s, i) != h
    ensures 0 <= i - 1 < |s| ==> At(h, s, i - 1) != h
    ensures 0 <= i + 1 < |s| ==> At(h, s, i + 1) != h
    ensures 0 < i < |s| ==> At(h, s, i) != At(h, s, 0)
    ensures -1 <= i < |s| - 1 ==> At(h, s, i) != At(h, s, |s| - 1)
    ensures At(h, s, i) != q && At(h, s, i + 1) != q && At(h, s, i - 1) != q
  {
  }

  /** QUEUE_REMOVE */
  method Remove(q: Node, ghost h: Node, ghost s: seq<Node>, ghost k: nat)
    requires Ring(h, s) && k < |s| && q == s[k]
    modifies Members(h, s)
    ensures Ring(h, s[..k] + s[k + 1..])
  {
    hide Distinct;
    Look(h, s, k);
    AllLinked(h, s);
    Without(h, s, k);
    q.prev.next := q.next;
    q.next.prev := q.prev;
    ghost var r := s[..k] + s[k + 1..];
    forall i {:trigger Linked(h, r, i)} | -1 <= i < |r| ensures Linked(h, r, i) {
      assert old(Linked(h, s, if i < k then i else i + 1));
      Skip(h, s, k, i);
    }
    IsRing(h, r);
  }

  lemma Without(h: Node, s: seq<Node>, k: nat)
    requires Distinct(h, s) && k < |s|
    ensures Distinct(h, s[..k] + s[k + 1..])
    ensures At(h, s, k - 1) in Members(h, s) && At(h, s, k + 1) in Members(h, s)
  {
  }

  /** Where the nodes around a position are without the node at `k`. */
  lemma Skip(h: Node, s: seq<Node>, k: nat, i: int)
    requires Distinct(h, s) && k < |s| && -1 <= i < |s| - 1
    ensures var r := s[..k] + s[k + 1..];
      && At(h, r, i) == (if i < k then At(h, s, i) else At(h, s, i + 1))
      && At(h, r, i + 1) == (if i + 1 < k then At(h, s, i + 1) else At(h, s, i + 2))
    ensures -1 <= i < k - 1 ==> At(h, s, i) != At(h, s, k - 1) && At(h, s, i + 1) != At(h, s, k + 1)
    ensures k <= i ==> At(h, s, i + 1) != At(h, s, k - 1) && At(h, s, i + 2) != At(h, s, k + 1)
  {
  }
}
