/** The binary tree of linked nodes (src/fsfw/container/BinaryTree.h): not a search tree, the caller says
    where a node goes. */
module BinaryTrees {
  class Node<T> {
    var value: T
    var left: Node?<T>
    var right: Node?<T>
    var parent: Node?<T>

    constructor (value: T)
      ensures this.value == value && left == null && right == null && parent == null
    {
      this.value := value;
      left, right, parent := null, null, null;
    }
  }

  // ---------- shapes ----------

  /** A tree as a value; its nodes are identities. */
  datatype Shape<T> = Nil | Branch(node: Node<T>, left: Shape<T>, right: Shape<T>)

  ghost function Nodes<T>(t: Shape<T>): set<Node<T>> {
    match t
    case Nil => {}
    case Branch(n, l, r) => {n} + Nodes(l) + Nodes(r)
  }

  /** No node occurs twice. */
  ghost predicate Proper<T>(t: Shape<T>) {
    match t
    case Nil => true
    case Branch(n, l, r) =>
      && n !in Nodes(l) && n !in Nodes(r) && Nodes(l) !! Nodes(r)
      && Proper(l) && Proper(r)
  }

  ghost function Subtree<T>(t: Shape<T>, x: Node<T>): (s: Shape<T>)
    ensures x in Nodes(t) ==> s.Branch? && s.node == x
    ensures Nodes(s) <= Nodes(t)
    ensures Proper(t) ==> Proper(s)
  {
    match t
    case Nil => Nil
    case Branch(n, l, r) => if n == x then t else if x in Nodes(l) then Subtree(l, x) else Subtree(r, x)
  }

  /** What is in a child slot. */
  ghost function Occupant<T>(t: Shape<T>, p: Node<T>, insertLeft: bool): Shape<T>
    requires p in Nodes(t)
  {
    if insertLeft then Subtree(t, p).left else Subtree(t, p).right
  }

  /** The tree with `sub` in the given child slot of p, in place of what was there. */
  ghost function Graft<T>(t: Shape<T>, p: Node<T>, insertLeft: bool, sub: Shape<T>): Shape<T> {
    match t
    case Nil => Nil
    case Branch(n, l, r) =>
      if n == p then (if insertLeft then Branch(n, sub, r) else Branch(n, l, sub))
      else Branch(n, Graft(l, p, insertLeft, sub), Graft(r, p, insertLeft, sub))
  }

  /** The tree without x and everything below it. */
  ghost function Prune<T>(t: Shape<T>, x: Node<T>): Shape<T> {
    match t
    case Nil => Nil
    case Branch(n, l, r) => if n == x then Nil else Branch(n, Prune(l, x), Prune(r, x))
  }

  lemma {:induction false} GraftElsewhere<T>(t: Shape<T>, p: Node<T>, insertLeft: bool, sub: Shape<T>)
    requires p !in Nodes(t)
    ensures Graft(t, p, insertLeft, sub) == t
  {
    match t
    case Nil =>
    case Branch(n, l, r) =>
      GraftElsewhere(l, p, insertLeft, sub);
      GraftElsewhere(r, p, insertLeft, sub);
  }

  lemma {:induction false} PruneElsewhere<T>(t: Shape<T>, x: Node<T>)
    requires x !in Nodes(t)
    ensures Prune(t, x) == t
  {
    match t
    case Nil =>
    case Branch(n, l, r) =>
      PruneElsewhere(l, x);
      PruneElsewhere(r, x);
  }

  lemma {:induction false} GraftHasNode<T>(t: Shape<T>, p: Node<T>, insertLeft: bool, sub: Shape<T>, k: Node<T>)
    requires Proper(t) && p in Nodes(t)
    ensures k in Nodes(Graft(t, p, insertLeft, sub))
            <==> k in Nodes(sub) || (k in Nodes(t) && k !in Nodes(Occupant(t, p, insertLeft)))
  {
    var Branch(n, l, r) := t;
    if n != p {
      if p in Nodes(l) {
        GraftHasNode(l, p, insertLeft, sub, k);
        GraftElsewhere(r, p, insertLeft, sub);
      } else {
        GraftHasNode(r, p, insertLeft, sub, k);
        GraftElsewhere(l, p, insertLeft, sub);
      }
    }
  }

  /** Inserting adds exactly the inserted nodes and drops exactly what was in the slot. */
  lemma GraftReplacesOccupant<T>(t: Shape<T>, p: Node<T>, insertLeft: bool, sub: Shape<T>)
    requires Proper(t) && p in Nodes(t)
    ensures Nodes(Graft(t, p, insertLeft, sub)) <= Nodes(t) + Nodes(sub)
    ensures Nodes(t) !! Nodes(sub) ==>
              Nodes(Graft(t, p, insertLeft, sub)) == Nodes(t) - Nodes(Occupant(t, p, insertLeft)) + Nodes(sub)
  {
    forall k: Node<T> | k in Nodes(t) + Nodes(sub) + Nodes(Graft(t, p, insertLeft, sub))
      ensures k in Nodes(Graft(t, p, insertLeft, sub))
              <==> k in Nodes(sub) || (k in Nodes(t) && k !in Nodes(Occupant(t, p, insertLeft)))
    {
      GraftHasNode(t, p, insertLeft, sub, k);
    }
  }

  lemma {:induction false} GraftIsProper<T>(t: Shape<T>, p: Node<T>, insertLeft: bool, sub: Shape<T>)
    requires Proper(t) && Proper(sub) && Nodes(t) !! Nodes(sub) && p in Nodes(t)
    ensures Proper(Graft(t, p, insertLeft, sub))
  {
    var Branch(n, l, r) := t;
    if n != p {
      if p in Nodes(l) {
        GraftIsProper(l, p, insertLeft, sub);
        GraftReplacesOccupant(l, p, insertLeft, sub);
        GraftElsewhere(r, p, insertLeft, sub);
      } else {
        GraftIsProper(r, p, insertLeft, sub);
        GraftReplacesOccupant(r, p, insertLeft, sub);
        GraftElsewhere(l, p, insertLeft, sub);
      }
    }
  }

  /** Erasing removes exactly the node's subtree. */
  lemma {:induction false} PruneRemovesSubtree<T>(t: Shape<T>, x: Node<T>)
    requires Proper(t) && x in Nodes(t)
    ensures Proper(Prune(t, x))
    ensures Nodes(Prune(t, x)) == Nodes(t) - Nodes(Subtree(t, x))
  {
    var Branch(n, l, r) := t;
    if n != x {
      if x in Nodes(l) {
        PruneRemovesSubtree(l, x);
        PruneElsewhere(r, x);
      } else {
        PruneRemovesSubtree(r, x);
        PruneElsewhere(l, x);
      }
    }
  }

  /** Erasing what was inserted into a free slot gives the tree back. */
  lemma {:induction false} PruneUndoesGraft<T>(t: Shape<T>, p: Node<T>, insertLeft: bool, sub: Shape<T>)
    requires Proper(t) && sub.Branch? && Nodes(t) !! Nodes(sub)
    requires p in Nodes(t) && Occupant(t, p, insertLeft) == Nil
    ensures Prune(Graft(t, p, insertLeft, sub), sub.node) == t
  {
    var Branch(n, l, r) := t;
    if n == p {
      PruneElsewhere(l, sub.node);
      PruneElsewhere(r, sub.node);
    } else if p in Nodes(l) {
      PruneUndoesGraft(l, p, insertLeft, sub);
      GraftElsewhere(r, p, insertLeft, sub);
      PruneElsewhere(r, sub.node);
    } else {
      PruneUndoesGraft(r, p, insertLeft, sub);
      GraftElsewhere(l, p, insertLeft, sub);
      PruneElsewhere(l, sub.node);
    }
  }

  ghost function LeftSpine<T>(t: Shape<T>): nat {
    if t.Nil? then 0 else 1 + LeftSpine(t.left)
  }

  ghost function RightSpine<T>(t: Shape<T>): nat {
    if t.Nil? then 0 else 1 + RightSpine(t.right)
  }

  // ---------- pointers ----------

  datatype Links<T> = Links(left: Node?<T>, right: Node?<T>, parent: Node?<T>)

  type LinkMap<T> = map<Node<T>, Links<T>>

  /** The pointers of some nodes. */
  ghost function LinksOf<T>(nodes: set<Node<T>>): (m: LinkMap<T>)
    reads nodes
    ensures m.Keys == nodes
  {
    map k | k in nodes :: Links(k.left, k.right, k.parent)
  }

  /** The pointers from `at` down have this shape, and every node points back to its parent. */
  ghost predicate Linked<T>(m: LinkMap<T>, t: Shape<T>, at: Node?<T>, parent: Node?<T>) {
    match t
    case Nil => at == null
    case Branch(n, l, r) =>
      && at == n && n in m && m[n].parent == parent
      && Linked(m, l, m[n].left, n) && Linked(m, r, m[n].right, n)
  }

  ghost predicate AgreeOn<T>(a: LinkMap<T>, b: LinkMap<T>, nodes: set<Node<T>>) {
    forall k :: k in nodes ==> (k in a <==> k in b) && (k in a && k in b ==> a[k] == b[k])
  }

  lemma {:induction false} LinkedIsLocal<T>(a: LinkMap<T>, b: LinkMap<T>, t: Shape<T>, at: Node?<T>, parent: Node?<T>)
    requires Linked(a, t, at, parent) && AgreeOn(a, b, Nodes(t))
    ensures Linked(b, t, at, parent)
  {
    match t
    case Nil =>
    case Branch(n, l, r) =>
      LinkedIsLocal(a, b, l, a[n].left, n);
      LinkedIsLocal(a, b, r, a[n].right, n);
  }

  lemma {:induction false} SubtreeIsLinked<T>(m: LinkMap<T>, t: Shape<T>, at: Node?<T>, parent: Node?<T>, x: Node<T>)
    requires Linked(m, t, at, parent) && x in Nodes(t)
    ensures x in m && Linked(m, Subtree(t, x), x, m[x].parent)
  {
    match t
    case Nil =>
    case Branch(n, l, r) =>
      if n != x {
        if x in Nodes(l) { SubtreeIsLinked(m, l, m[n].left, n, x); } else { SubtreeIsLinked(m, r, m[n].right, n, x); }
      }
  }

  /** A free slot is a null pointer. */
  lemma SlotIsFreeIffNull<T>(m: LinkMap<T>, t: Shape<T>, at: Node?<T>, parent: Node?<T>, p: Node<T>, insertLeft: bool)
    requires Linked(m, t, at, parent) && p in Nodes(t)
    ensures p in m && (Occupant(t, p, insertLeft) == Nil <==> (if insertLeft then m[p].left else m[p].right) == null)
  {
    SubtreeIsLinked(m, t, at, parent, p);
  }

  /** Below the root a node's parent is in the tree and points to it on exactly one side. */
  lemma {:induction false} ParentIsInTree<T>(m: LinkMap<T>, t: Shape<T>, at: Node?<T>, parent: Node?<T>, x: Node<T>)
    requires Linked(m, t, at, parent) && Proper(t) && x in Nodes(t) && x != at
    ensures x in m && m[x].parent != null && m[x].parent in Nodes(t) && m[x].parent in m && m[x].parent != x
    ensures (m[m[x].parent].left == x) != (m[m[x].parent].right == x)
  {
    match t
    case Nil =>
    case Branch(n, l, r) =>
      if m[n].left == x || m[n].right == x {
        assert l.Branch? ==> l.node == m[n].left && l.node in Nodes(l);
        assert r.Branch? ==> r.node == m[n].right && r.node in Nodes(r);
      } else if x in Nodes(l) {
        ParentIsInTree(m, l, m[n].left, n, x);
      } else {
        ParentIsInTree(m, r, m[n].right, n, x);
      }
  }

  function WithChild<T>(k: Links<T>, insertLeft: bool, child: Node?<T>): Links<T> {
    if insertLeft then k.(left := child) else k.(right := child)
  }

  /** Setting a free child pointer of p to the root of a linked tree grafts that tree. */
  lemma {:induction false} GraftIsLinked<T>(a: LinkMap<T>, b: LinkMap<T>, t: Shape<T>, at: Node?<T>, parent: Node?<T>,
                                            p: Node<T>, insertLeft: bool, sub: Shape<T>, child: Node<T>)
    requires Linked(a, t, at, parent) && Proper(t) && p in Nodes(t) && p in a && p in b
    requires Linked(b, sub, child, p)
    requires AgreeOn(a, b, Nodes(t) - {p}) && b[p] == WithChild(a[p], insertLeft, child)
    ensures Linked(b, Graft(t, p, insertLeft, sub), at, parent)
  {
    match t
    case Nil =>
    case Branch(n, l, r) =>
      if n == p {
        if insertLeft { LinkedIsLocal(a, b, r, a[n].right, n); } else { LinkedIsLocal(a, b, l, a[n].left, n); }
      } else if p in Nodes(l) {
        GraftIsLinked(a, b, l, a[n].left, n, p, insertLeft, sub, child);
        GraftElsewhere(r, p, insertLeft, sub);
        LinkedIsLocal(a, b, r, a[n].right, n);
      } else {
        GraftIsLinked(a, b, r, a[n].right, n, p, insertLeft, sub, child);
        GraftElsewhere(l, p, insertLeft, sub);
        LinkedIsLocal(a, b, l, a[n].left, n);
      }
  }

  /** Clearing the parent's pointer to x prunes x, whose own pointers stay as they are. */
  lemma {:induction false} PruneIsLinked<T>(a: LinkMap<T>, b: LinkMap<T>, t: Shape<T>, at: Node?<T>, parent: Node?<T>,
                                            x: Node<T>, p: Node<T>, onLeft: bool)
    requires Linked(a, t, at, parent) && Proper(t) && x in Nodes(t) && x != at
    requires x in a && a[x].parent == p && p in Nodes(t) && p in a && p in b
    requires (if onLeft then a[p].left else a[p].right) == x
    requires AgreeOn(a, b, Nodes(t) - {p}) && b[p] == WithChild(a[p], onLeft, null)
    ensures Linked(b, Prune(t, x), at, parent)
  {
    match t
    case Nil =>
    case Branch(n, l, r) =>
      if n == p {
        assert l.Branch? ==> l.node in Nodes(l);
        assert r.Branch? ==> r.node in Nodes(r);
        if onLeft {
          LinkedIsLocal(a, b, r, a[n].right, n);
          PruneElsewhere(r, x);
        } else {
          LinkedIsLocal(a, b, l, a[n].left, n);
          PruneElsewhere(l, x);
        }
      } else if x in Nodes(l) {
        assert x != a[n].left by { assert l.node in Nodes(l); }
        ParentIsInTree(a, l, a[n].left, n, x);
        PruneIsLinked(a, b, l, a[n].left, n, x, p, onLeft);
        PruneElsewhere(r, x);
        LinkedIsLocal(a, b, r, a[n].right, n);
      } else {
        assert x != a[n].right by { assert r.node in Nodes(r); }
        ParentIsInTree(a, r, a[n].right, n, x);
        PruneIsLinked(a, b, r, a[n].right, n, x, p, onLeft);
        PruneElsewhere(l, x);
        LinkedIsLocal(a, b, l, a[n].left, n);
      }
  }

  class BinaryTree<T> {
    var rootNode: Node?<T>
    ghost var shape: Shape<T>

    /** The reachable nodes form a tree whose parent and child pointers agree. */
    ghost predicate Valid()
      reads this, Nodes(shape)
    {
      Proper(shape) && Linked(LinksOf(Nodes(shape)), shape, rootNode, null)
    }

    constructor ()
      ensures Valid() && shape == Nil
    {
      rootNode := null;
      shape := Nil;
    }

    /** Puts a node, with whatever tree hangs below it, into a child slot, or makes it the root.  What was
        there before drops out of the tree; into a free slot nothing does. */
    method Insert(insertLeft: bool, parentNode: Node?<T>, newNode: Node<T>, ghost sub: Shape<T>)
      requires Valid() && Proper(sub) && Nodes(sub) !! Nodes(shape)
      requires Linked(LinksOf(Nodes(sub)), sub, newNode, newNode.parent)
      requires parentNode != null ==> parentNode in Nodes(shape)
      modifies this, newNode, parentNode
      ensures Valid() && newNode.parent == parentNode
      ensures shape == if parentNode == null then sub else Graft(old(shape), parentNode, insertLeft, sub)
      ensures parentNode != null ==>
                Nodes(shape) == old(Nodes(shape)) - Nodes(Occupant(old(shape), parentNode, insertLeft)) + Nodes(sub)
      ensures parentNode == null ==> rootNode == newNode
      ensures parentNode != null ==>
                && rootNode == old(rootNode) && parentNode.parent == old(parentNode.parent)
                && parentNode.left == (if insertLeft then newNode else old(parentNode.left))
                && parentNode.right == (if insertLeft then old(parentNode.right) else newNode)
    {
      ghost var before, all := shape, Nodes(shape) + Nodes(sub);
      ghost var a, c := LinksOf(Nodes(shape)), LinksOf(Nodes(sub));
      assert newNode in Nodes(sub);
      newNode.parent := parentNode;
      if parentNode != null {
        GraftIsProper(before, parentNode, insertLeft, sub);
        GraftReplacesOccupant(before, parentNode, insertLeft, sub);
        if insertLeft {
          parentNode.left := newNode;
        } else {
          parentNode.right := newNode;
        }
        shape := Graft(before, parentNode, insertLeft, sub);
        InsertIsLinked(a, c, LinksOf(all), before, rootNode, parentNode, insertLeft, sub, newNode);
        LinkedIsLocal(LinksOf(all), LinksOf(Nodes(shape)), shape, rootNode, null);
      } else {
        rootNode := newNode;
        shape := sub;
        RerootIsLinked(c, LinksOf(Nodes(sub)), sub, newNode, null);
      }
    }

    /** Takes a node and its subtree out of the tree.  The node keeps its pointers, the one to its
        former parent included. */
    method Erase(node: Node<T>) returns (left: Node?<T>, right: Node?<T>)
      requires Valid() && node in Nodes(shape)
      modifies this, Nodes(shape) - {node}
      ensures Valid() && shape == Prune(old(shape), node)
      ensures Nodes(shape) == old(Nodes(shape)) - Nodes(Subtree(old(shape), node))
      ensures left == node.left && right == node.right
      ensures rootNode == if node == old(rootNode) then null else old(rootNode)
      ensures node != old(rootNode) ==>
                && node.parent != null
                && node.parent.left == (if old(node.parent.left) == node then null else old(node.parent.left))
                && node.parent.right == (if old(node.parent.right) == node then null else old(node.parent.right))
      ensures var gone := Subtree(old(shape), node);
              Linked(LinksOf(Nodes(gone)), gone, node, node.parent)
    {
      ghost var before, all, root := shape, Nodes(shape), rootNode;
      ghost var a := LinksOf(all);
      shape := Prune(shape, node);
      if node == rootNode {
        rootNode := null;
      } else {
        ParentIsInTree(a, before, rootNode, null, node);
        if node.parent.left == node {
          node.parent.left := null;
        } else {
          node.parent.right := null;
        }
      }
      left, right := node.left, node.right;
      EraseIsLinked(a, LinksOf(all), before, root, node);
      PruneRemovesSubtree(before, node);
      LinkedIsLocal(LinksOf(all), LinksOf(Nodes(shape)), shape, rootNode, null);
      ghost var gone := Subtree(before, node);
      LinkedIsLocal(LinksOf(all), LinksOf(Nodes(gone)), gone, node, node.parent);
    }
  }

  /** A tree whose root gets another parent is still linked. */
  lemma RerootIsLinked<T>(a: LinkMap<T>, b: LinkMap<T>, sub: Shape<T>, root: Node<T>, parent: Node?<T>)
    requires Proper(sub) && root in a && Linked(a, sub, root, a[root].parent)
    requires AgreeOn(a, b, Nodes(sub) - {root}) && root in b && b[root] == a[root].(parent := parent)
    ensures Linked(b, sub, root, parent)
  {
    LinkedIsLocal(a, b, sub.left, a[root].left, root);
    LinkedIsLocal(a, b, sub.right, a[root].right, root);
  }

  /** a are the pointers of the tree, c those of the inserted tree, b the pointers afterwards. */
  lemma InsertIsLinked<T>(a: LinkMap<T>, c: LinkMap<T>, b: LinkMap<T>, t: Shape<T>, root: Node?<T>, p: Node<T>,
                          insertLeft: bool, sub: Shape<T>, child: Node<T>)
    requires Linked(a, t, root, null) && Proper(t) && p in Nodes(t) && p in a && p in b
    requires Proper(sub) && child in c && Linked(c, sub, child, c[child].parent)
    requires AgreeOn(a, b, Nodes(t) - {p}) && b[p] == WithChild(a[p], insertLeft, child)
    requires AgreeOn(c, b, Nodes(sub) - {child}) && child in b && b[child] == c[child].(parent := p)
    ensures Linked(b, Graft(t, p, insertLeft, sub), root, null)
  {
    RerootIsLinked(c, b, sub, child, p);
    GraftIsLinked(a, b, t, root, null, p, insertLeft, sub, child);
  }

  /** The parent of a node below the root is not in the node's own subtree. */
  lemma {:induction false} ParentIsOutside<T>(m: LinkMap<T>, t: Shape<T>, at: Node?<T>, parent: Node?<T>, x: Node<T>)
    requires Linked(m, t, at, parent) && Proper(t) && x in Nodes(t) && x != at
    ensures x in m && m[x].parent != null && m[x].parent !in Nodes(Subtree(t, x))
  {
    match t
    case Nil =>
    case Branch(n, l, r) =>
      assert l.Branch? ==> l.node in Nodes(l);
      assert r.Branch? ==> r.node in Nodes(r);
      if x in Nodes(l) {
        if x != m[n].left { ParentIsOutside(m, l, m[n].left, n, x); }
      } else {
        if x != m[n].right { ParentIsOutside(m, r, m[n].right, n, x); }
      }
  }

  lemma EraseIsLinked<T>(a: LinkMap<T>, b: LinkMap<T>, t: Shape<T>, root: Node?<T>, x: Node<T>)
    requires Linked(a, t, root, null) && Proper(t) && x in Nodes(t) && a.Keys == Nodes(t)
    requires x == root ==> b == a
    requires x != root ==>
               var p := a[x].parent;
               p != null && p in a && b == a[p := WithChild(a[p], a[p].left == x, null)]
    ensures x in b && Linked(b, Prune(t, x), if x == root then null else root, null)
    ensures Linked(b, Subtree(t, x), x, a[x].parent) && b[x].parent == a[x].parent
  {
    SubtreeIsLinked(a, t, root, null, x);
    if x != root {
      ParentIsInTree(a, t, root, null, x);
      ParentIsOutside(a, t, root, null, x);
      PruneIsLinked(a, b, t, root, null, x, a[x].parent, a[a[x].parent].left == x);
      LinkedIsLocal(a, b, Subtree(t, x), x, a[x].parent);
    }
  }

  /** How many nodes there are down the left, the start included; `path` are those nodes. */
  method CountLeft<T>(start: Node?<T>, ghost t: Shape<T>) returns (count: nat, ghost path: seq<Node<T>>)
    requires Linked(LinksOf(Nodes(t)), t, start, if start == null then null else start.parent)
    ensures count == LeftSpine(t) == |path|
    ensures start == null ==> count == 0
    ensures start != null ==> count > 0 && path[0] == start && path[count - 1].left == null
    ensures forall i :: 0 <= i < count - 1 ==> path[i].left == path[i + 1]
  {
    path := [];
    if start == null {
      return 0, [];
    }
    ghost var m := LinksOf(Nodes(t));
    count := 1;
    var it: Node<T> := start;
    path := [it];
    ghost var s := t;
    while it.left != null
      invariant s.Branch? && Nodes(s) <= Nodes(t) && Linked(m, s, it, it.parent)
      invariant count + LeftSpine(s) == 1 + LeftSpine(t)
      invariant count == |path| > 0 && path[0] == start && path[count - 1] == it
      invariant forall i :: 0 <= i < count - 1 ==> path[i].left == path[i + 1]
      decreases s
    {
      count := count + 1;
      assert it in Nodes(s) && m[it].left == it.left;
      s := s.left;
      assert it.left in Nodes(s);
      it := it.left;
      path := path + [it];
    }
  }

  method CountRight<T>(start: Node?<T>, ghost t: Shape<T>) returns (count: nat, ghost path: seq<Node<T>>)
    requires Linked(LinksOf(Nodes(t)), t, start, if start == null then null else start.parent)
    ensures count == RightSpine(t) == |path|
    ensures start == null ==> count == 0
    ensures start != null ==> count > 0 && path[0] == start && path[count - 1].right == null
    ensures forall i :: 0 <= i < count - 1 ==> path[i].right == path[i + 1]
  {
    path := [];
    if start == null {
      return 0, [];
    }
    ghost var m := LinksOf(Nodes(t));
    count := 1;
    var it: Node<T> := start;
    path := [it];
    ghost var s := t;
    while it.right != null
      invariant s.Branch? && Nodes(s) <= Nodes(t) && Linked(m, s, it, it.parent)
      invariant count + RightSpine(s) == 1 + RightSpine(t)
      invariant count == |path| > 0 && path[0] == start && path[count - 1] == it
      invariant forall i :: 0 <= i < count - 1 ==> path[i].right == path[i + 1]
      decreases s
    {
      count := count + 1;
      assert it in Nodes(s) && m[it].right == it.right;
      s := s.right;
      assert it.right in Nodes(s);
      it := it.right;
      path := path + [it];
    }
  }
}
