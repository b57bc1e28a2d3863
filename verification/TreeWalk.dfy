/** The pre-order iterator: one step forward or backward along the pointers. */
module TreeWalks {
  import opened Trees
  import opened TreeLinks
  import opened TreeEdits
  import opened LinkedTrees

  /** The nodes in pre-order. */
  ghost function Order<N>(f: seq<Tree<N>>): seq<N> {
    if f == [] then [] else [f[0].op] + (Order(f[0].kids) + Order(f[1..]))
  }

  lemma {:induction false} OrderLabels<N>(f: seq<Tree<N>>)
    ensures forall i | 0 <= i < |Order(f)| :: Order(f)[i] in Labels(f)
    ensures f != [] ==> Order(f) != [] && Order(f)[0] == f[0].op
  {
    if f != [] {
      OrderLabels(f[0].kids);
      OrderLabels(f[1..]);
    }
  }

  /** The node behind the subtree at n, where d stands behind the list. */
  ghost function Behind<T>(f: Forest<T>, n: TreeNode<T>, d: TreeNode?<T>): TreeNode?<T>
    requires n in Labels(f)
  {
    if f[0].op == n then Head(f[1..], d)
    else if n in Labels(f[0].kids) then Behind(f[0].kids, n, Head(f[1..], d))
    else Behind(f[1..], n, d)
  }

  /** The node behind n in pre-order. */
  ghost function Next<T>(f: Forest<T>, n: TreeNode<T>, d: TreeNode?<T>): TreeNode?<T>
    requires n in Labels(f)
  {
    Head(Find(f, n).kids, Behind(f, n, d))
  }

  /** The last node of a tree in pre-order. */
  ghost function LastNode<N>(t: Tree<N>): N {
    if t.kids == [] then t.op else LastNode(t.kids[|t.kids| - 1])
  }

  /** The node before n in pre-order, where d stands before the list. */
  ghost function Previous<T>(f: Forest<T>, n: TreeNode<T>, d: TreeNode?<T>): TreeNode?<T>
    requires n in Labels(f)
  {
    if f[0].op == n then d
    else if n in Labels(f[0].kids) then Previous(f[0].kids, n, f[0].op)
    else Previous(f[1..], n, LastNode(f[0]))
  }

  ghost function Level<T>(f: Forest<T>, n: TreeNode<T>): nat
    requires n in Labels(f)
  {
    if f[0].op == n then 0
    else if n in Labels(f[0].kids) then 1 + Level(f[0].kids, n)
    else Level(f[1..], n)
  }

  // ---------------------------------------------------------------- positions

  /** In the list s, surrounded by d and e, the element i stands between before and after. */
  ghost predicate Between<T>(s: seq<TreeNode<T>>, i: nat, before: TreeNode?<T>, after: TreeNode?<T>,
                             d: TreeNode?<T>, e: TreeNode?<T>) {
    && i < |s|
    && before == (if i == 0 then d else s[i - 1])
    && after == (if i + 1 == |s| then e else s[i + 1])
  }

  ghost function First<T>(s: seq<TreeNode<T>>, e: TreeNode?<T>): TreeNode?<T> { if s == [] then e else s[0] }

  lemma {:induction false} BetweenBelow<T>(t: TreeNode<T>, below: seq<TreeNode<T>>, beyond: seq<TreeNode<T>>, j: nat,
                                           before: TreeNode?<T>, after: TreeNode?<T>, d: TreeNode?<T>, e: TreeNode?<T>)
    requires Between(below, j, before, after, t, First(beyond, e))
    ensures var s := [t] + (below + beyond);
      Between(s, j + 1, before, after, d, e) && s[j + 1] == below[j]
  {
  }

  lemma {:induction false} BetweenBeyond<T>(t: TreeNode<T>, below: seq<TreeNode<T>>, beyond: seq<TreeNode<T>>, j: nat,
                                            before: TreeNode?<T>, after: TreeNode?<T>, d: TreeNode?<T>, e: TreeNode?<T>)
    requires Between(beyond, j, before, after, if below == [] then t else below[|below| - 1], e)
    ensures var s, i := [t] + (below + beyond), 1 + |below| + j;
      Between(s, i, before, after, d, e) && s[i] == beyond[j]
  {
    var s, i := [t] + (below + beyond), 1 + |below| + j;
    assert s[i] == beyond[j] && (j + 1 < |beyond| ==> s[i + 1] == beyond[j + 1]);
    assert j > 0 ==> s[i - 1] == beyond[j - 1];
    assert j == 0 ==> s[i - 1] == if below == [] then t else below[|below| - 1];
  }

  /** Next and Previous are the neighbours in pre-order. */
  lemma {:induction false} NeighboursInOrder<T>(f: Forest<T>, n: TreeNode<T>, d: TreeNode?<T>, e: TreeNode?<T>) returns (i: nat)
    requires Distinct(f) && n in Labels(f)
    ensures i < |Order(f)| && Order(f)[i] == n
    ensures Between(Order(f), i, Previous(f, n, d), Next(f, n, e), d, e)
  {
    if n == f[0].op {
      i := 0;
      RootInOrder(f, d, e);
    } else if n in Labels(f[0].kids) {
      var j := NeighboursInOrder(f[0].kids, n, f[0].op, Head(f[1..], e));
      i := NeighboursBelow(f, n, d, e, j);
    } else {
      var j := NeighboursInOrder(f[1..], n, LastNode(f[0]), e);
      i := NeighboursBeyond(f, n, d, e, j);
    }
  }

  lemma {:induction false} NeighboursBelow<T>(f: Forest<T>, n: TreeNode<T>, d: TreeNode?<T>, e: TreeNode?<T>, j: nat) returns (i: nat)
    requires Distinct(f) && f != [] && n in Labels(f[0].kids) && n != f[0].op
    requires var below, x := Order(f[0].kids), Head(f[1..], e);
      && j < |below| && below[j] == n
      && Between(below, j, Previous(f[0].kids, n, f[0].op), Next(f[0].kids, n, x), f[0].op, x)
    ensures i < |Order(f)| && Order(f)[i] == n
    ensures Between(Order(f), i, Previous(f, n, d), Next(f, n, e), d, e)
  {
    FirstInOrder(f[1..], e);
    BetweenBelow(f[0].op, Order(f[0].kids), Order(f[1..]), j, Previous(f, n, d), Next(f, n, e), d, e);
    i := j + 1;
  }

  lemma {:induction false} NeighboursBeyond<T>(f: Forest<T>, n: TreeNode<T>, d: TreeNode?<T>, e: TreeNode?<T>, j: nat) returns (i: nat)
    requires Distinct(f) && f != [] && n in Labels(f[1..]) && n !in Labels(f[0].kids) && n != f[0].op
    requires var beyond := Order(f[1..]);
      && j < |beyond| && beyond[j] == n
      && Between(beyond, j, Previous(f[1..], n, LastNode(f[0])), Next(f[1..], n, e), LastNode(f[0]), e)
    ensures i < |Order(f)| && Order(f)[i] == n
    ensures Between(Order(f), i, Previous(f, n, d), Next(f, n, e), d, e)
  {
    LastInOrder(f[0]);
    BetweenBeyond(f[0].op, Order(f[0].kids), Order(f[1..]), j, Previous(f, n, d), Next(f, n, e), d, e);
    i := 1 + |Order(f[0].kids)| + j;
  }

  lemma {:induction false} FirstInOrder<T>(f: Forest<T>, e: TreeNode?<T>)
    ensures First(Order(f), e) == Head(f, e)
  {
    OrderLabels(f);
  }

  lemma {:induction false} RootInOrder<T>(f: Forest<T>, d: TreeNode?<T>, e: TreeNode?<T>)
    requires f != []
    ensures Order(f) != [] && Order(f)[0] == f[0].op
    ensures Between(Order(f), 0, d, Head(f[0].kids, Head(f[1..], e)), d, e)
  {
    FirstInOrder(f[0].kids, null);
    FirstInOrder(f[1..], e);
    OrderLabels(f[0].kids);
  }

  lemma {:induction false} LastInOrder<N>(t: Tree<N>)
    ensures LastNode(t) == if Order(t.kids) == [] then t.op else Order(t.kids)[|Order(t.kids)| - 1]
  {
    if t.kids != [] {
      OrderLabels(t.kids);
      LastOfList(t.kids);
    }
  }

  lemma {:induction false} LastOfList<N>(f: seq<Tree<N>>)
    requires f != []
    ensures Order(f) != [] && Order(f)[|Order(f)| - 1] == LastNode(f[|f| - 1])
  {
    OrderLabels(f);
    if |f| == 1 {
      LastInOrder(f[0]);
      assert Order(f) == [f[0].op] + Order(f[0].kids);
    } else {
      LastOfList(f[1..]);
    }
  }

  lemma {:induction false} OrderDistinct<N>(f: seq<Tree<N>>)
    requires Distinct(f)
    ensures NoRepeats(Order(f))
  {
    if f != [] {
      OrderDistinct(f[0].kids);
      OrderDistinct(f[1..]);
      OrderLabels(f[0].kids);
      OrderLabels(f[1..]);
      var below, beyond := Order(f[0].kids), Order(f[1..]);
      forall i, j | 0 <= i < |below| && 0 <= j < |beyond| ensures below[i] != beyond[j] {
        assert below[i] in Labels(f[0].kids) && beyond[j] in Labels(f[1..]);
      }
      ConcatNoRepeats(below, beyond);
      ConcatNoRepeats([f[0].op], Order(f[0].kids) + Order(f[1..]));
    }
  }

  ghost predicate NoRepeats<N>(s: seq<N>) { forall i, j | 0 <= i < j < |s| :: s[i] != s[j] }

  lemma {:induction false} ConcatNoRepeats<N>(s: seq<N>, t: seq<N>)
    requires NoRepeats(s) && NoRepeats(t) && forall i, j | 0 <= i < |s| && 0 <= j < |t| :: s[i] != t[j]
    ensures NoRepeats(s + t)
  {
    var st := s + t;
    forall i, j | 0 <= i < j < |st| ensures st[i] != st[j] {
      if i >= |s| {
        assert st[i] == t[i - |s|] && st[j] == t[j - |s|];
      } else if j >= |s| {
        assert st[i] == s[i] && st[j] == t[j - |s|];
      }
    }
  }

  // ---------------------------------------------------------------- climbing and descending

  /** What the climb does at n: stop at a right sibling, or go on from the parent. */
  lemma {:induction false} BehindIsAbove<T>(f: Forest<T>, p: TreeNode?<T>, a: TreeNode?<T>, n: TreeNode<T>, d: TreeNode?<T>)
    requires Distinct(f) && Outside(f, p, a, null) && n in Labels(f)
    ensures var l := LinkOf(f, p, a, null, n);
      if l.next != null then Behind(f, n, d) == l.next
      else if l.parent == p then Behind(f, n, d) == d
      else l.parent != null && var up: TreeNode<T> := l.parent;
        up in Labels(f) && Behind(f, n, d) == Behind(f, up, d) && Level(f, up) < Level(f, n)
  {
    var t := f[0];
    LinkTargets(f, p, a, null, n);
    if n != t.op {
      if n in Labels(t.kids) {
        BehindIsAbove(t.kids, t.op, null, n, Head(f[1..], d));
        LinkTargets(t.kids, t.op, null, null, n);
      } else {
        BehindIsAbove(f[1..], p, t.op, n, d);
        LinkTargets(f[1..], p, t.op, null, n);
      }
    }
  }

  /** What the step back does at n: the last node below the left sibling, or the parent. */
  lemma {:induction false} PreviousIsLeft<T>(f: Forest<T>, p: TreeNode?<T>, a: TreeNode?<T>, b: TreeNode?<T>, n: TreeNode<T>, d: TreeNode?<T>)
    requires Distinct(f) && Outside(f, p, a, b) && n in Labels(f)
    ensures var l := LinkOf(f, p, a, b, n);
      if n == f[0].op then l.prev == a && l.parent == p && Previous(f, n, d) == d
      else if l.prev != null then
        var left: TreeNode<T> := l.prev;
        left in Labels(f) && Previous(f, n, d) == LastNode(Find(f, left))
      else l.parent in Labels(f) && Previous(f, n, d) == l.parent
  {
    var t := f[0];
    if n != t.op {
      if n in Labels(t.kids) {
        PreviousIsLeft(t.kids, t.op, null, null, n, t.op);
        LinkTargets(t.kids, t.op, null, null, n);
      } else {
        PreviousIsLeft(f[1..], p, t.op, b, n, LastNode(t));
        LinkTargets(f[1..], p, t.op, b, n);
      }
    }
  }

  // ---------------------------------------------------------------- the iterator

  /** The node behind n in pre-order, not looking below n if its children are to be skipped. */
  method Increment<T>(tree: LinkedTree<T>, n: TreeNode<T>, skipChildren: bool) returns (next: TreeNode?<T>)
    requires tree.Valid() && n in tree.nodes
    ensures next == if skipChildren then Behind(tree.shape, n, null) else Next(tree.shape, n, null)
  {
    EndsOfKids(tree.shape, null, null, null, n);
    if !skipChildren && n.firstChild != null { return n.firstChild; }
    var node := n;
    ghost var level := Level(tree.shape, n);
    while node.nextSibling == null
      invariant node in tree.nodes && Behind(tree.shape, node, null) == Behind(tree.shape, n, null)
      invariant level == Level(tree.shape, node)
      decreases level
    {
      BehindIsAbove(tree.shape, null, null, node, null);
      if node.parent == null { return null; }
      node := node.parent;
      level := Level(tree.shape, node);
    }
    BehindIsAbove(tree.shape, null, null, node, null);
    next := node.nextSibling;
  }

  /** The node before n in pre-order. */
  method Decrement<T>(tree: LinkedTree<T>, n: TreeNode<T>) returns (before: TreeNode?<T>)
    requires tree.Valid() && n in tree.nodes
    ensures before == Previous(tree.shape, n, null)
  {
    PreviousIsLeft(tree.shape, null, null, null, n, null);
    if n.prevSibling == null { return n.parent; }
    before := Deepest(tree, n.prevSibling);
  }

  /** The node at the end of the last children below n. */
  method Deepest<T>(tree: LinkedTree<T>, n: TreeNode<T>) returns (last: TreeNode<T>)
    requires tree.Valid() && n in tree.nodes
    ensures last == LastNode(Find(tree.shape, n))
  {
    last := n;
    EndsOfKids(tree.shape, null, null, null, n);
    while last.lastChild != null
      invariant last in tree.nodes && LastNode(Find(tree.shape, last)) == LastNode(Find(tree.shape, n))
      invariant last.lastChild == Tail(Find(tree.shape, last).kids, null)
      decreases Find(tree.shape, last)
    {
      LastChild(tree.shape, last);
      last := last.lastChild;
      EndsOfKids(tree.shape, null, null, null, last);
    }
  }

  lemma {:induction false} LastChild<T>(f: Forest<T>, n: TreeNode<T>)
    requires Distinct(f) && n in Labels(f) && Find(f, n).kids != []
    ensures var kids := Find(f, n).kids;
      && kids[|kids| - 1].op in Labels(f) && Find(f, kids[|kids| - 1].op) == kids[|kids| - 1]
  {
    var kids := Find(f, n).kids;
    FindLabels(f, n);
    TopIsLabel(kids, |kids| - 1);
    TopFind(kids, |kids| - 1);
    FindBelow(f, n, kids[|kids| - 1].op);
  }

  /** What stands behind a subtree is not in it. */
  lemma {:induction false} BehindIsOutside<T>(f: Forest<T>, n: TreeNode<T>, d: TreeNode?<T>)
    requires Distinct(f) && n in Labels(f) && (d == null || d !in Labels(f))
    ensures Behind(f, n, d) == d || Behind(f, n, d) in Labels(f)
    ensures Behind(f, n, d) == null || Behind(f, n, d) !in Labels(Find(f, n).kids)
    ensures Behind(f, n, d) != n || d == n
  {
    FindLabels(f, n);
    if n != f[0].op {
      if n in Labels(f[0].kids) {
        BehindIsOutside(f[0].kids, n, Head(f[1..], d));
        FindLabels(f[0].kids, n);
      } else {
        BehindIsOutside(f[1..], n, d);
        FindLabels(f[1..], n);
      }
    }
  }

  /** Erases a subtree and steps to the node behind it, which stays. */
  method EraseAndStep<T>(tree: LinkedTree<T>, position: TreeNode<T>) returns (next: TreeNode?<T>)
    requires tree.Valid() && position in tree.nodes && position != tree.head && position != tree.feet
    modifies tree, tree.nodes
    ensures tree.Valid() && tree.shape == Splice(old(tree.shape), position, 1, [])
    ensures tree.nodes == old(tree.nodes - Gone(tree.shape, position, 1))
    ensures next == old(Behind(tree.shape, position, null)) && (next != null ==> next in tree.nodes)
  {
    BehindIsOutside(tree.shape, position, null);
    FindLabels(tree.shape, position);
    next := Increment(tree, position, true);
    tree.Erase(position);
  }

  /** The iterator goes through the nodes in pre-order, and a step back undoes a step
      forward and the other way round. */
  lemma {:induction false} StepsUndoEachOther<T>(f: Forest<T>, n: TreeNode<T>, m: TreeNode<T>)
    requires Distinct(f) && n in Labels(f) && m in Labels(f)
    ensures Next(f, n, null) == m <==> Previous(f, m, null) == n
    ensures Next(f, n, null) == m <==> exists i :: 0 <= i < |Order(f)| - 1 && Order(f)[i] == n && Order(f)[i + 1] == m
  {
    OrderDistinct(f);
    var i := NeighboursInOrder(f, n, null, null);
    var j := NeighboursInOrder(f, m, null, null);
  }
}
