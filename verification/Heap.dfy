// The pointer-based binary min heap of the event loop's timers: a complete binary tree
// whose nodes carry left, right and parent links, with the next free slot and the last
// slot found from the bits of the number of nodes.

module TimerHeap {
  import opened Arith

  /** A timer handle. The heap owns its three links; the other fields are the timer's. */
  class Handle {
    var left: Handle?
    var right: Handle?
    var parent: Handle?
    var timeout: nat
    var startId: nat
    var repeatTime: nat
    var callback: nat
    var active: bool
    var closing: bool
  }

  /** Earlier timeout first, and among equal timeouts the one started first. */
  predicate Less(a: Handle, b: Handle)
    reads a`timeout, a`startId, b`timeout, b`startId
  {
    if a.timeout < b.timeout then true
    else if b.timeout < a.timeout then false
    else a.startId < b.startId
  }

  /** The position above position i, -1 above the root. */
  function Above(i: nat): int {
    (i - 1) / 2
  }

  /** The node at a position of the tree in breadth-first order, or none. */
  ghost function At(s: seq<Handle>, i: int): Handle? {
    if 0 <= i < |s| then s[i] else null
  }

  ghost predicate Distinct(s: seq<Handle>) {
    forall i, j :: 0 <= i < j < |s| ==> s[i] != s[j]
  }

  ghost predicate LinkedAt(s: seq<Handle>, i: nat)
    requires i < |s|
    reads {s[i]}`left, {s[i]}`right, {s[i]}`parent
  {
    s[i].left == At(s, 2 * i + 1) && s[i].right == At(s, 2 * i + 2) && s[i].parent == At(s, Above(i))
  }

  /** The links of the nodes are those of the complete binary tree of s. */
  ghost predicate Linked(s: seq<Handle>)
    reads s`left, s`right, s`parent
  {
    forall i :: 0 <= i < |s| ==> LinkedAt(s, i)
  }

  /** No node is less than the one above it. */
  ghost predicate Ordered(s: seq<Handle>)
    reads s`timeout, s`startId
  {
    forall i :: 0 < i < |s| ==> !Less(s[i], s[Above(i)])
  }

  ghost function One(a: Handle?): set<Handle> {
    if a == null then {} else {a}
  }

  /** Nodes around a pair are different unless they are missing. */
  ghost predicate Apart(a: Handle?, b: Handle?) {
    a != null ==> a != b
  }

  /** The nodes around a parent and its child that an exchange relinks. */
  ghost predicate Around(parent: Handle, child: Handle, sibling: Handle?, l: Handle?, r: Handle?, g: Handle?) {
    && parent != child && parent != sibling && child != sibling
    && parent != l && parent != r && parent != g && child != l && child != r && child != g
    && Apart(sibling, l) && Apart(sibling, r) && Apart(sibling, g) && Apart(l, r) && Apart(l, g) && Apart(r, g)
  }

  /** Exchanges the links of a parent and its child, and those that lead to them, except
      for the tree's pointer to its root. */
  method SwapLinks(parent: Handle, child: Handle, ghost isLeft: bool,
                   ghost sibling: Handle?, ghost l: Handle?, ghost r: Handle?, ghost g: Handle?)
    requires Around(parent, child, sibling, l, r, g)
    requires if isLeft then parent.left == child && parent.right == sibling
             else parent.right == child && parent.left == sibling
    requires child.left == l && child.right == r && parent.parent == g
    modifies parent`left, parent`right, parent`parent, child`left, child`right, child`parent
    modifies (One(sibling) + One(l) + One(r))`parent, One(g)`left, One(g)`right
    ensures parent.left == l && parent.right == r && parent.parent == child
    ensures if isLeft then child.left == parent && child.right == sibling
            else child.right == parent && child.left == sibling
    ensures child.parent == g
    ensures sibling != null ==> sibling.parent == child
    ensures l != null ==> l.parent == parent
    ensures r != null ==> r.parent == parent
    ensures g != null && old(g.left) == parent ==> g.left == child && g.right == old(g.right)
    ensures g != null && old(g.left) != parent ==> g.right == child && g.left == old(g.left)
  {
    parent.left, parent.right, parent.parent, child.left, child.right, child.parent :=
      child.left, child.right, child.parent, parent.left, parent.right, parent.parent;
    parent.parent := child;
    var other: Handle?;
    if child.left == child {
      child.left := parent;
      other := child.right;
    } else {
      child.right := parent;
      other := child.left;
    }
    if other != null {
      other.parent := child;
    }
    if parent.left != null {
      parent.left.parent := parent;
    }
    if parent.right != null {
      parent.right.parent := parent;
    }
    if child.parent != null {
      if child.parent.left == parent {
        child.parent.left := child;
      } else {
        child.parent.right := child;
      }
    }
  }

  /** Nodes at different positions are different. */
  lemma DifferentNodes(s: seq<Handle>)
    requires Distinct(s)
    ensures forall i: int, j: int :: At(s, i) != null && At(s, i) == At(s, j) ==> i == j
  {
  }

  /** One node more, behind the last one. */
  lemma AppendedNodes(s: seq<Handle>, x: Handle)
    requires Distinct(s) && x !in s
    ensures Distinct(s + [x])
    ensures forall j: int :: At(s + [x], j) == if j == |s| then x else At(s, j)
  {
  }

  /** Only the node above a slot has it as its child. */
  lemma BelowSlot(n: nat, i: nat)
    ensures 2 * i + 1 == n <==> n > 0 && i == Above(n) && (n + 1) % 2 == 0
    ensures 2 * i + 2 == n <==> n > 0 && i == Above(n) && (n + 1) % 2 == 1
    ensures n > 0 ==> Above(n) != n && 0 <= Above(n) < n
    ensures i < n ==> Above(i) != n
  {
  }

  lemma AroundNodes(s: seq<Handle>, p: nat, c: nat, other: nat)
    requires Distinct(s) && p < c < |s| && Above(c) == p && other != c && Above(other) == p
    ensures Around(s[p], s[c], At(s, other), At(s, 2 * c + 1), At(s, 2 * c + 2), At(s, Above(p)))
  {
    DifferentNodes(s);
  }

  // The path to a slot. The slot of the n-th node, counted from 1, is found by reading the
  // binary digits of n after the first from the top: 0 goes left, 1 goes right.

  /** n without its k lowest binary digits: the number of the node k levels above n. */
  ghost function Ancestor(n: nat, k: nat): nat {
    if k == 0 then n else Ancestor(n, k - 1) / 2
  }

  /** The k lowest binary digits of n in reverse order. */
  ghost function Path(n: nat, k: nat): nat {
    if k == 0 then 0 else 2 * Path(n, k - 1) + Ancestor(n, k - 1) % 2
  }

  lemma {:induction false} AncestorBound(n: nat, k: nat)
    ensures Path(n, k) < Pow(2, k) && Ancestor(n, k) * Pow(2, k) <= n
    ensures k > 0 ==> Ancestor(n, k) <= n / 2
  {
    if k > 0 {
      AncestorBound(n, k - 1);
      var a, p := Ancestor(n, k - 1), Pow(2, k - 1);
      MulAssoc(a / 2, 2, p);
      MulMono(a / 2 * 2, a, p);
    }
  }

  /** The digits of the path fit the register that collects them. */
  lemma PathFits(n: nat, k: nat)
    requires n < TWO32 && Ancestor(n, k) >= 2
    ensures 2 * Path(n, k) + Ancestor(n, k) % 2 < TWO32
  {
    AncestorBound(n, k);
    MulMono(2, Ancestor(n, k), Pow(2, k));
  }

  /** The length and the digits of the path to the n-th node. */
  method PathTo(n: nat) returns (path: nat, k: nat)
    requires 0 < n < TWO32
    ensures path == Path(n, k) && Ancestor(n, k) == 1
  {
    var m := n;
    path, k := 0, 0;
    while m >= 2
      invariant m == Ancestor(n, k) && path == Path(n, k) && m >= 1
    {
      PathFits(n, k);
      path := U32(2 * path + m % 2);
      k, m := k + 1, m / 2;
    }
  }

  // Order: a single node may be out of order while it is moved.

  /** All is in order, except that the node at pos may be less than the one above it. */
  ghost predicate UpExcept(s: seq<Handle>, pos: nat)
    reads s`timeout, s`startId
  {
    && (forall i :: 0 < i < |s| && i != pos ==> !Less(s[i], s[Above(i)]))
    && (pos > 0 ==> forall i :: 0 < i < |s| && Above(i) == pos ==> !Less(s[i], s[Above(pos)]))
  }

  /** All is in order, except for the node at pos with regard to those next to it. */
  ghost predicate Except(s: seq<Handle>, pos: nat)
    reads s`timeout, s`startId
  {
    && (forall i :: 0 < i < |s| && i != pos && Above(i) != pos ==> !Less(s[i], s[Above(i)]))
    && (pos > 0 ==> forall i :: 0 < i < |s| && Above(i) == pos ==> pos < |s| && !Less(s[i], s[Above(pos)]))
  }

  ghost function Swapped(s: seq<Handle>, p: nat, c: nat): (t: seq<Handle>)
    requires p < |s| && c < |s|
    ensures |t| == |s| && multiset(t) == multiset(s)
  {
    s[p := s[c]][c := s[p]]
  }

  lemma SwapUp(s: seq<Handle>, pos: nat)
    requires 0 < pos < |s| && UpExcept(s, pos) && Less(s[pos], s[Above(pos)])
    ensures UpExcept(Swapped(s, Above(pos), pos), Above(pos))
  {
    var p, t := Above(pos), Swapped(s, Above(pos), pos);
    forall i | 0 < i < |t| && i != p
      ensures !Less(t[i], t[Above(i)])
    {
      if i == pos {
      } else if Above(i) == pos {
        assert !Less(s[i], s[p]);
      } else {
        assert !Less(s[i], s[Above(i)]);
      }
    }
    if p > 0 {
      forall i | 0 < i < |t| && Above(i) == p
        ensures !Less(t[i], t[Above(p)])
      {
        assert !Less(s[p], s[Above(p)]);
      }
    }
  }

  /** Exchanging the node at pos with the smaller of those below it. */
  lemma SwapDown(s: seq<Handle>, pos: nat, c: nat)
    requires pos < c < |s| && Above(c) == pos && Except(s, pos) && Less(s[c], s[pos])
    requires forall i :: 0 < i < |s| && Above(i) == pos ==> !Less(s[i], s[c])
    ensures Except(Swapped(s, pos, c), c)
    ensures !Less(Swapped(s, pos, c)[c], Swapped(s, pos, c)[pos])
  {
    var t := Swapped(s, pos, c);
    forall i | 0 < i < |t| && i != c && Above(i) != c
      ensures !Less(t[i], t[Above(i)])
    {
      if i == pos {
        assert !Less(s[c], s[Above(pos)]);
      } else if Above(i) != pos {
        assert !Less(s[i], s[Above(i)]);
      }
    }
    forall i | 0 < i < |t| && Above(i) == c
      ensures !Less(t[i], t[Above(c)])
    {
      assert !Less(s[i], s[Above(i)]);
    }
  }

  /** The root of a heap is least. */
  lemma {:induction false} RootIsLeast(s: seq<Handle>, i: nat)
    requires Ordered(s) && i < |s|
    ensures !Less(s[i], s[0])
  {
    if i > 0 {
      RootIsLeast(s, Above(i));
    }
  }

  /** Exchanges the links of two neighbouring positions of a tree. */
  method SwapPositions(ghost s: seq<Handle>, ghost p: nat, ghost c: nat, parent: Handle, child: Handle)
    requires Distinct(s) && Linked(s) && p < c < |s| && Above(c) == p && s[p] == parent && s[c] == child
    modifies s`left, s`right, s`parent
    ensures Distinct(Swapped(s, p, c)) && Linked(Swapped(s, p, c))
    ensures child.parent == At(s, Above(p))
  {
    assert LinkedAt(s, p) && LinkedAt(s, c);
    ghost var other := if c == 2 * p + 1 then 2 * p + 2 else 2 * p + 1;
    AroundNodes(s, p, c, other);
    SwapLinks(parent, child, c == 2 * p + 1, At(s, other), At(s, 2 * c + 1), At(s, 2 * c + 2), At(s, Above(p)));
    forall i | 0 <= i < |s|
      ensures LinkedAt(Swapped(s, p, c), i)
    {
      assert old(LinkedAt(s, i));
      Relinked(s, p, c, other, i, old(s[i].left), old(s[i].right), old(s[i].parent));
    }
    SwappedDistinct(s, p, c);
  }

  /** Who is at the root after an exchange. */
  lemma SwappedRoot(s: seq<Handle>, p: nat, c: nat)
    requires p < c < |s|
    ensures At(Swapped(s, p, c), 0) == if At(s, Above(p)) == null then s[c] else At(s, 0)
    ensures Swapped(s, p, c) == s[p := s[c]][c := s[p]]
  {
  }

  lemma SwappedDistinct(s: seq<Handle>, p: nat, c: nat)
    requires Distinct(s) && p < c < |s|
    ensures Distinct(Swapped(s, p, c))
  {
  }

  /** Exchanging a parent and its child in the tree relinks the nodes around them and no
      others. */
  lemma Relinked(s: seq<Handle>, p: nat, c: nat, other: nat, i: nat, left: Handle?, right: Handle?, parent: Handle?)
    requires p < c < |s| && Above(c) == p && other == (if c == 2 * p + 1 then 2 * p + 2 else 2 * p + 1)
    requires i < |s| && left == At(s, 2 * i + 1) && right == At(s, 2 * i + 2) && parent == At(s, Above(i))
    requires s[p].left == At(s, 2 * c + 1) && s[p].right == At(s, 2 * c + 2) && s[p].parent == s[c]
    requires if c == 2 * p + 1 then s[c].left == s[p] && s[c].right == At(s, other)
             else s[c].right == s[p] && s[c].left == At(s, other)
    requires s[c].parent == At(s, Above(p))
    requires i != p && i != c ==> s[i].parent == (if i == other then s[c] else if Above(i) == c then s[p] else parent)
    requires i != p && i != c ==> s[i].left == (if i == Above(p) && p == 2 * i + 1 then s[c] else left)
    requires i != p && i != c ==> s[i].right == (if i == Above(p) && p == 2 * i + 2 then s[c] else right)
    ensures LinkedAt(Swapped(s, p, c), i)
  {
  }

  /** Gives a node that is not in the tree the links of another, and the links to it. */
  method ReplaceLinks(ghost s: seq<Handle>, ghost p: nat, node: Handle, child: Handle)
    requires Distinct(s) && Linked(s) && p < |s| && s[p] == node && child !in s
    modifies s`left, s`right, s`parent, child`left, child`right, child`parent
    ensures Distinct(s[p := child]) && Linked(s[p := child]) && child.parent == At(s, Above(p))
  {
    assert LinkedAt(s, p);
    DifferentNodes(s);
    child.left := node.left;
    child.right := node.right;
    child.parent := node.parent;
    if child.left != null {
      child.left.parent := child;
    }
    if child.right != null {
      child.right.parent := child;
    }
    if node.parent != null {
      if node.parent.left == node {
        node.parent.left := child;
      } else {
        node.parent.right := child;
      }
    }
    ghost var t := s[p := child];
    forall i | 0 <= i < |s|
      ensures LinkedAt(t, i)
    {
      assert old(LinkedAt(s, i));
      ReplacedAt(s, p, child, i, old(s[i].left), old(s[i].right), old(s[i].parent));
    }
  }

  lemma ReplacedAt(s: seq<Handle>, p: nat, child: Handle, i: nat, left: Handle?, right: Handle?, parent: Handle?)
    requires p < |s| && i < |s| && left == At(s, 2 * i + 1) && right == At(s, 2 * i + 2) && parent == At(s, Above(i))
    requires child.left == At(s, 2 * p + 1) && child.right == At(s, 2 * p + 2) && child.parent == At(s, Above(p))
    requires i != p ==> s[i].left == (if p == 2 * i + 1 then child else left)
    requires i != p ==> s[i].right == (if p == 2 * i + 2 then child else right)
    requires i != p ==> s[i].parent == (if Above(i) == p then child else parent)
    ensures LinkedAt(s[p := child], i)
  {
  }

  class Heap {
    var min: Handle?
    var nelts: nat
    ghost var nodes: seq<Handle>

    ghost predicate Shape()
      reads this, nodes`left, nodes`right, nodes`parent
    {
      && Distinct(nodes) && Linked(nodes)
      && nelts == |nodes| < TWO32
      && min == At(nodes, 0)
    }

    ghost predicate Valid()
      reads this, nodes`left, nodes`right, nodes`parent, nodes`timeout, nodes`startId
    {
      Shape() && Ordered(nodes)
    }

    constructor ()
      ensures Valid() && nodes == []
    {
      min, nelts, nodes := null, 0, [];
    }

    /** Exchanges a node with the one above it. */
    method NodeSwap(parent: Handle, child: Handle, ghost p: nat, ghost c: nat)
      requires Shape() && p < c < |nodes| && Above(c) == p && nodes[p] == parent && nodes[c] == child
      modifies this, nodes`left, nodes`right, nodes`parent
      ensures Shape() && nodes == old(nodes)[p := child][c := parent]
    {
      hide Linked, Distinct, LinkedAt, At, Above, Swapped;
      SwappedRoot(nodes, p, c);
      SwapPositions(nodes, p, c, parent, child);
      if child.parent == null {
        min := child;
      }
      nodes := Swapped(nodes, p, c);
    }

    /** One step up of a node that is less than the one above it. */
    method StepUp(node: Handle, ghost pos: nat)
      requires Shape() && 0 < pos < |nodes| && nodes[pos] == node && UpExcept(nodes, pos)
      requires node.parent == nodes[Above(pos)] && Less(node, nodes[Above(pos)])
      modifies this, nodes`left, nodes`right, nodes`parent
      ensures Shape() && nodes == Swapped(old(nodes), Above(pos), pos) && UpExcept(nodes, Above(pos))
    {
      hide Linked, Distinct, UpExcept, Less;
      SwapUp(nodes, pos);
      NodeSwap(node.parent, node, Above(pos), pos);
    }

    /** Moves a node up until it is not less than the one above it. */
    method SiftUp(node: Handle, ghost start: nat)
      requires Shape() && start < |nodes| && nodes[start] == node && UpExcept(nodes, start)
      modifies this, nodes`left, nodes`right, nodes`parent
      ensures Valid() && multiset(nodes) == multiset(old(nodes))
    {
      hide Less, Distinct, Linked, UpExcept, Ordered;
      ghost var pos: nat := start;
      ghost var all := nodes;
      ParentLink(nodes, pos);
      while node.parent != null && Less(node, node.parent)
        invariant Shape() && multiset(nodes) == multiset(all) && Known(nodes, all)
        invariant pos < |nodes| && nodes[pos] == node && UpExcept(nodes, pos)
        invariant node.parent == At(nodes, Above(pos))
        decreases pos
      {
        StepUp(node, pos);
        AreKnown(nodes, all);
        pos := Above(pos);
        ParentLink(nodes, pos);
      }
      SettledUp(nodes, pos);
    }

    /** One step down: exchanges a node with the smaller one below it. */
    method StepDown(node: Handle, smallest: Handle, ghost pos: nat, ghost c: nat)
      requires Shape() && pos < c < |nodes| && Above(c) == pos && Except(nodes, pos)
      requires nodes[pos] == node && nodes[c] == smallest && Less(smallest, node)
      requires forall i :: 0 < i < |nodes| && Above(i) == pos ==> !Less(nodes[i], smallest)
      modifies this, nodes`left, nodes`right, nodes`parent
      ensures Shape() && nodes == Swapped(old(nodes), pos, c) && Except(nodes, c)
      ensures !Less(nodes[c], nodes[pos])
    {
      hide Except;
      SwapDown(nodes, pos, c);
      NodeSwap(node, smallest, pos, c);
    }

    /** The smallest of a node and those below it, and its position. */
    method Smallest(node: Handle, ghost pos: nat) returns (smallest: Handle, ghost c: nat)
      requires Shape() && pos < |nodes| && nodes[pos] == node
      ensures c < |nodes| && nodes[c] == smallest && (c == pos || (Above(c) == pos && c > pos && Less(smallest, node)))
      ensures forall i :: 0 < i < |nodes| && Above(i) == pos ==> !Less(nodes[i], smallest)
    {
      hide Distinct, Linked;
      ParentLink(nodes, pos);
      smallest, c := node, pos;
      if node.left != null && Less(node.left, smallest) {
        smallest, c := node.left, 2 * pos + 1;
      }
      if node.right != null && Less(node.right, smallest) {
        smallest, c := node.right, 2 * pos + 2;
      }
      TwoBelow(nodes, pos, smallest);
    }

    /** Moves a node down until none below it is less. */
    method SiftDown(node: Handle, ghost start: nat) returns (ghost pos: nat)
      requires Shape() && start < |nodes| && nodes[start] == node && Except(nodes, start)
      modifies this, nodes`left, nodes`right, nodes`parent
      ensures Shape() && multiset(nodes) == multiset(old(nodes))
      ensures pos < |nodes| && nodes[pos] == node && UpExcept(nodes, pos)
    {
      hide Less, Distinct, Linked, Except, UpExcept;
      pos := start;
      while true
        invariant Shape() && multiset(nodes) == multiset(old(nodes)) && Known(nodes, old(nodes))
        invariant pos < |nodes| && nodes[pos] == node && Except(nodes, pos)
        invariant |nodes| == |old(nodes)|
        decreases |nodes| - pos
      {
        var smallest, c := Smallest(node, pos);
        if smallest == node {
          SettledDown(nodes, pos, c);
          break;
        }
        StepDown(node, smallest, pos, c);
        AreKnown(nodes, old(nodes));
        pos := c;
      }
    }

    /** Follows a path from the root to the slot of the n-th node: what is in the slot, the
        node above it, and the side of that node it is on. */
    method FindSlot(path0: nat, k0: nat, ghost n: nat) returns (above: Handle?, slot: Handle?, right: bool)
      requires Shape() && 0 < n <= |nodes| + 1 && path0 == Path(n, k0) && Ancestor(n, k0) == 1
      ensures slot == At(nodes, n - 1)
      ensures above == (if n == 1 then min else At(nodes, Above(n - 1)))
      ensures n > 1 ==> above != null && right == (n % 2 == 1)
    {
      hide Distinct, Linked, LinkedAt;
      var path: nat, k: nat := path0, k0;
      above, slot, right := min, min, false;
      if k == 0 {
        assert n == 1;
      }
      while k > 0
        invariant path == Path(n, k) && k <= k0
        invariant Ancestor(n, k) >= 1 && slot == At(nodes, Ancestor(n, k) - 1)
        invariant k < k0 ==> Ancestor(n, k) > 1 && above == At(nodes, Above(Ancestor(n, k) - 1)) && above != null
        invariant k < k0 ==> right == (Ancestor(n, k) % 2 == 1)
        invariant k == k0 ==> above == min && Ancestor(n, k) == 1
      {
        AncestorBound(n, k);
        ParentLink(nodes, Ancestor(n, k) - 1);
        above := slot;
        right := path % 2 == 1;
        if right {
          slot := slot.right;
        } else {
          slot := slot.left;
        }
        path := path / 2;
        k := k - 1;
      }
    }

    /** Links a new node into the next free slot. */
    method AppendNode(newNode: Handle, path: nat, k: nat)
      requires Shape() && newNode !in nodes && |nodes| + 1 < TWO32
      requires newNode.left == null && newNode.right == null
      requires path == Path(1 + nelts, k) && Ancestor(1 + nelts, k) == 1
      modifies this, nodes`left, nodes`right, newNode`parent
      ensures Shape() && nodes == old(nodes) + [newNode]
    {
      hide Path, Ancestor, Distinct;
      ghost var s := nodes;
      AppendedNodes(s, newNode);
      var above, slot, right := FindSlot(path, k, nelts + 1);
      newNode.parent := above;
      if above == null {
        min := newNode;
      } else if right {
        above.right := newNode;
      } else {
        above.left := newNode;
      }
      nelts := nelts + 1;
      nodes := nodes + [newNode];
      DifferentNodes(s);
      assert Linked(nodes) by {
        forall i | 0 <= i < |nodes|
          ensures LinkedAt(nodes, i)
        {
          if i < |s| {
            assert old(LinkedAt(s, i));
            BelowSlot(|s|, i);
          }
        }
      }
    }

    /** Adds a node: at the next free slot, then up to its place. */
    method Insert(newNode: Handle)
      requires Valid() && newNode !in nodes && |nodes| + 1 < TWO32
      modifies this, nodes`left, nodes`right, nodes`parent
      modifies newNode`left, newNode`right, newNode`parent
      ensures Valid() && multiset(nodes) == multiset(old(nodes)) + multiset{newNode}
      ensures forall x :: x in nodes <==> x in old(nodes) || x == newNode
    {
      hide Less, Distinct, Linked, Except, UpExcept, Ordered;
      newNode.left, newNode.right, newNode.parent := null, null, null;
      var path, k := PathTo(1 + nelts);
      AppendNode(newNode, path, k);
      AppendedLast(old(nodes), nodes);
      SiftUp(newNode, |nodes| - 1);
      OneMore(old(nodes), nodes, newNode);
    }

    /** Takes the last node out of the tree. */
    method UnlinkLast() returns (last: Handle)
      requires Shape() && |nodes| > 0
      modifies this, nodes`left, nodes`right
      ensures Shape() && last == old(nodes[|nodes| - 1]) && nodes == old(nodes)[..|old(nodes)| - 1]
    {
      ghost var s := nodes;
      var path, k := PathTo(nelts);
      var above, slot, right := FindSlot(path, k, nelts);
      last := slot;
      AncestorBound(nelts, k);
      nelts := nelts - 1;
      if k == 0 {
        min := null;
      } else if right {
        above.right := null;
      } else {
        above.left := null;
      }
      nodes := s[..|s| - 1];
      DifferentNodes(s);
      assert Linked(nodes) by {
        forall i | 0 <= i < |nodes|
          ensures LinkedAt(nodes, i)
        {
          assert old(LinkedAt(s, i));
        }
      }
    }

    /** Puts a node that is not in the tree in the place of another. */
    method Replace(node: Handle, child: Handle, ghost p: nat)
      requires Shape() && p < |nodes| && nodes[p] == node && child !in nodes
      modifies this, nodes`left, nodes`right, nodes`parent, child`left, child`right, child`parent
      ensures Shape() && nodes == old(nodes)[p := child]
    {
      hide Linked;
      ReplaceLinks(nodes, p, node, child);
      if child.parent == null {
        min := child;
      }
      nodes := nodes[p := child];
    }

    /** Puts a node in the place of another and moves it down or up to where it belongs. */
    method Reseat(node: Handle, child: Handle, ghost p: nat)
      requires Valid() && p < |nodes| && nodes[p] == node && child !in nodes
      modifies this, nodes`left, nodes`right, nodes`parent, child`left, child`right, child`parent
      ensures Valid() && multiset(nodes) == multiset(old(nodes)[p := child])
    {
      hide Less, Linked, Distinct, Except, UpExcept, Ordered;
      Replace(node, child, p);
      ReplacedExcept(old(nodes), p, child);
      ghost var t := nodes;
      assert Known(t, old(nodes) + [child]);
      ghost var pos := SiftDown(child, p);
      AreKnown(nodes, t);
      SiftUp(child, pos);
    }

    /** Removes a node: the last one takes its place and moves down or up from there. An
        empty heap is left alone. */
    method Remove(node: Handle)
      requires Valid() && (nelts > 0 ==> node in nodes)
      modifies this, nodes`left, nodes`right, nodes`parent
      ensures Valid() && multiset(nodes) == multiset(old(nodes)) - multiset{node}
      ensures forall x :: x in nodes <==> x in old(nodes) && x != node
    {
      hide Less, Linked, Distinct, Except, UpExcept, Ordered;
      if nelts == 0 {
        return;
      }
      ghost var s, n := nodes, |nodes| - 1;
      LastApart(s);
      var child := UnlinkLast();
      PrefixOrdered(s, n);
      WithoutLast(s);
      OneLess(s, nodes, child);
      if child == node {
        if child == min { // the root was cleared with the last node, so this cannot happen
          assert false;
        }
        return;
      }
      ghost var p :| 0 <= p < |s| && s[p] == node;
      WithoutOne(s, p);
      Reseat(node, child, p);
      OneLess(s, nodes, node);
    }

    /** The least node, or none. */
    method Min() returns (least: Handle?)
      requires Valid()
      ensures least == At(nodes, 0) && (least == null <==> nodes == [])
      ensures least != null ==> least in nodes && forall i :: 0 <= i < |nodes| ==> !Less(nodes[i], least)
    {
      forall i: nat | i < |nodes|
        ensures !Less(nodes[i], nodes[0])
      {
        RootIsLeast(nodes, i);
      }
      least := min;
    }

    /** Removes the least node. */
    method Dequeue()
      requires Valid() && nelts > 0
      modifies this, nodes`left, nodes`right, nodes`parent
      ensures Valid() && multiset(nodes) == multiset(old(nodes)) - multiset{old(nodes)[0]}
      ensures forall i :: 0 <= i < |old(nodes)| ==> !Less(old(nodes)[i], old(nodes)[0])
    {
      var least := Min();
      Remove(least);
    }
  }

  /** Every node of s is one of t. */
  ghost predicate Known(s: seq<Handle>, t: seq<Handle>) {
    forall k :: 0 <= k < |s| ==> s[k] in t
  }

  lemma AreKnown(s: seq<Handle>, t: seq<Handle>)
    requires multiset(s) == multiset(t)
    ensures Known(s, t) && |s| == |t|
  {
    assert |multiset(s)| == |multiset(t)|;
    forall k | 0 <= k < |s|
      ensures s[k] in t
    {
      assert s[k] in multiset(s);
      assert s[k] in multiset(t);
    }
  }

  /** Only two positions are directly below another. */
  lemma TwoBelow(s: seq<Handle>, pos: nat, smallest: Handle)
    requires 2 * pos + 1 < |s| ==> !Less(s[2 * pos + 1], smallest)
    requires 2 * pos + 2 < |s| ==> !Less(s[2 * pos + 2], smallest)
    ensures forall i :: 0 < i < |s| && Above(i) == pos ==> !Less(s[i], smallest)
  {
  }

  lemma SettledDown(s: seq<Handle>, pos: nat, c: nat)
    requires Except(s, pos) && pos < |s| && c < |s| && s[c] == s[pos]
    requires forall i :: 0 < i < |s| && Above(i) == pos ==> !Less(s[i], s[c])
    ensures UpExcept(s, pos)
  {
  }

  lemma OneMore(s: seq<Handle>, t: seq<Handle>, h: Handle)
    requires multiset(t) == multiset(s) + multiset{h}
    ensures forall x :: x in t <==> x in s || x == h
  {
    forall x: Handle
      ensures x in t <==> x in s || x == h
    {
      assert x in t <==> x in multiset(t);
      assert x in s <==> x in multiset(s);
    }
  }

  lemma OneLess(s: seq<Handle>, t: seq<Handle>, h: Handle)
    requires multiset(t) == multiset(s) - multiset{h} && Distinct(s)
    ensures forall x :: x in t <==> x in s && x != h
  {
    forall x: Handle
      ensures x in t <==> x in s && x != h
    {
      assert x in t <==> x in multiset(t);
      assert x in s <==> x in multiset(s);
      OnlyOnce(s, x);
    }
  }

  lemma {:induction false} OnlyOnce(s: seq<Handle>, x: Handle)
    requires Distinct(s)
    ensures multiset(s)[x] <= 1
  {
    if s != [] {
      var n := |s| - 1;
      OnlyOnce(s[..n], x);
      assert s == s[..n] + [s[n]];
      assert s[n] !in s[..n];
    }
  }

  lemma LastApart(s: seq<Handle>)
    requires Distinct(s) && |s| > 0
    ensures s[|s| - 1] !in s[..|s| - 1]
  {
  }

  lemma PrefixOrdered(s: seq<Handle>, n: nat)
    requires Ordered(s) && n <= |s|
    ensures Ordered(s[..n])
  {
  }

  lemma WithoutLast(s: seq<Handle>)
    requires |s| > 0
    ensures multiset(s[..|s| - 1]) == multiset(s) - multiset{s[|s| - 1]}
  {
    assert s == s[..|s| - 1] + [s[|s| - 1]];
  }

  /** The last node in the place of the one at p: that one is gone. */
  lemma WithoutOne(s: seq<Handle>, p: nat)
    requires p < |s| - 1
    ensures multiset(s[..|s| - 1][p := s[|s| - 1]]) == multiset(s) - multiset{s[p]}
  {
    WithoutLast(s);
    var t := s[..|s| - 1];
    assert multiset(t[p := s[|s| - 1]]) == multiset(t) - multiset{t[p]} + multiset{s[|s| - 1]};
    assert t[p] in multiset(t);
    assert multiset(s) == multiset(t) + multiset{s[|s| - 1]};
  }

  /** A new node at p is out of order only with regard to those next to it. */
  lemma ReplacedExcept(s: seq<Handle>, p: nat, child: Handle)
    requires Ordered(s) && p < |s|
    ensures Except(s[p := child], p)
  {
    var t := s[p := child];
    if p > 0 {
      forall i | 0 < i < |t| && Above(i) == p
        ensures !Less(t[i], t[Above(p)])
      {
        assert !Less(s[i], s[Above(i)]) && !Less(s[p], s[Above(p)]);
      }
    }
  }

  lemma AppendedLast(s: seq<Handle>, t: seq<Handle>)
    requires Ordered(s) && |t| == |s| + 1 && t[..|s|] == s
    ensures UpExcept(t, |s|)
  {
    assert forall i :: 0 <= i < |s| ==> t[i] == s[i];
  }

  lemma ParentLink(s: seq<Handle>, i: nat)
    requires Linked(s) && i < |s|
    ensures s[i].parent == At(s, Above(i)) && s[i].left == At(s, 2 * i + 1) && s[i].right == At(s, 2 * i + 2)
  {
    assert LinkedAt(s, i);
  }

  lemma SettledUp(s: seq<Handle>, pos: nat)
    requires UpExcept(s, pos) && pos < |s| && (pos > 0 ==> !Less(s[pos], s[Above(pos)]))
    ensures Ordered(s)
  {
  }
}
