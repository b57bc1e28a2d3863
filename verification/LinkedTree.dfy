/** The n-ary tree container: nodes linked to parent, first and last child and
    both siblings, between the sentinels head and feet. */
module LinkedTrees {
  import opened Trees
  import opened TreeLinks
  import opened TreeEdits

  /** The nodes of f carry the pointers of a list that hangs below p between a and b. */
  ghost predicate Hangs<T>(f: Forest<T>, p: TreeNode?<T>, a: TreeNode?<T>, b: TreeNode?<T>)
    reads Labels(f)
  {
    forall m :: m in Labels(f) ==> m.alive && m.Links() == LinkOf(f, p, a, b, m)
  }

  /** The nodes of ns carry the pointers that the forest f prescribes. */
  ghost predicate Stands<T>(f: Forest<T>, ns: set<TreeNode<T>>)
    reads ns
  {
    forall m :: m in ns ==> m in Labels(f) && m.alive && m.Links() == PointersOf(f, m)
  }

  /** Makes h and t the ends of what stands between a and b below p: the
      statement pair that every edit of the tree ends with. */
  method Connect<T>(p: TreeNode?<T>, a: TreeNode?<T>, b: TreeNode?<T>, h: TreeNode?<T>, t: TreeNode?<T>,
                    ghost ns: set<TreeNode<T>>)
    requires Neighbours(ns, p, a, b)
    modifies p, a, b
    ensures forall m :: m in ns ==> m.Links() == Adjust(old(m.Links()), m, p, a, b, h, t)
    ensures Kept(ns)
  {
    if a == null { p.firstChild := h; } else { a.nextSibling := h; }
    if b == null { p.lastChild := t; } else { b.prevSibling := t; }
  }

  twostate predicate Kept<T>(ns: set<TreeNode<T>>)
    reads ns
  {
    forall m :: m in ns ==> m.data == old(m.data) && m.alive == old(m.alive)
  }

  /** The siblings rs stand one after the other. */
  ghost predicate Chained<T>(rs: seq<TreeNode<T>>)
    reads rs
  {
    && (forall i, j | 0 <= i < j < |rs| :: rs[i] != rs[j])
    && (forall i | 0 <= i < |rs| - 1 :: rs[i].nextSibling == rs[i + 1])
  }

  /** Lets the siblings from first to last point up to p. */
  method SetParents<T>(ghost rs: seq<TreeNode<T>>, first: TreeNode<T>, last: TreeNode<T>, p: TreeNode?<T>)
    requires rs != [] && Chained(rs) && first == rs[0] && last == rs[|rs| - 1]
    modifies rs
    ensures forall i | 0 <= i < |rs| ::
      rs[i].Links() == old(rs[i].Links()).(parent := p) && rs[i].data == old(rs[i].data) && rs[i].alive == old(rs[i].alive)
  {
    ghost var i := 0;
    var pos := first;
    while true
      invariant 0 <= i < |rs| && pos == rs[i] && Chained(rs)
      invariant forall j | 0 <= j < |rs| ::
        && rs[j].Links() == (if j < i then old(rs[j].Links()).(parent := p) else old(rs[j].Links()))
        && rs[j].data == old(rs[j].data) && rs[j].alive == old(rs[j].alive)
      decreases |rs| - i
    {
      pos.parent := p;
      if pos == last { break; }
      pos := pos.nextSibling;
      i := i + 1;
    }
  }

  /** Lets the roots of the detached siblings mid point up to p. */
  method SetRoots<T>(ghost mid: Forest<T>, ghost own: set<TreeNode<T>>, first: TreeNode<T>, last: TreeNode<T>, p: TreeNode?<T>,
                   ghost p0: TreeNode?<T>, ghost a0: TreeNode?<T>, ghost b0: TreeNode?<T>)
    requires Siblings(mid, own, first, last) && Hangs(mid, p0, a0, b0)
    modifies own
    ensures Kept(own) && forall m | m in own :: m.Links() == if Top(mid, m) then old(m.Links()).(parent := p) else old(m.Links())
  {
    TopLabels(mid);
    ghost var rs := Roots(mid);
    ChainOfRoots(mid, p0, a0, b0);
    SetParents(rs, first, last, p);
    forall m | m in own ensures m.Links() == if Top(mid, m) then old(m.Links()).(parent := p) else old(m.Links()) {
      if Top(mid, m) { var i :| 0 <= i < |mid| && mid[i].op == m; assert rs[i] == m; }
    }
  }

  /** Puts a left of first and b right of last. */
  method SetSides<T>(ghost own: set<TreeNode<T>>, first: TreeNode<T>, last: TreeNode<T>, a: TreeNode?<T>, b: TreeNode?<T>)
    requires first in own && last in own
    modifies first`prevSibling, last`nextSibling
    ensures forall m | m in own ::
      m.Links() == old(m.Links()).(prev := if m == first then a else old(m.prevSibling), next := if m == last then b else old(m.nextSibling))
  {
    first.prevSibling := a;
    last.nextSibling := b;
  }

  lemma {:induction false} NewParent<T>(mid: Forest<T>, p: TreeNode?<T>, a: TreeNode?<T>, b: TreeNode?<T>, q: TreeNode?<T>, m: TreeNode<T>)
    requires Distinct(mid) && m in Labels(mid)
    ensures var l := LinkOf(mid, p, a, b, m); LinkOf(mid, q, a, b, m) == if Top(mid, m) then l.(parent := q) else l
  {
    Reframe(mid, p, a, b, p, a, b, m);
    Reframe(mid, p, a, b, q, a, b, m);
  }

  lemma {:induction false} NewSides<T>(mid: Forest<T>, p: TreeNode?<T>, a: TreeNode?<T>, b: TreeNode?<T>, c: TreeNode?<T>, d: TreeNode?<T>,
                                       m: TreeNode<T>)
    requires Distinct(mid) && m in Labels(mid)
    ensures var l := LinkOf(mid, p, a, b, m);
      LinkOf(mid, p, c, d, m) == l.(prev := if m == mid[0].op then c else l.prev,
                                    next := if m == mid[|mid| - 1].op then d else l.next)
  {
    Reframe(mid, p, a, b, p, a, b, m);
    Reframe(mid, p, a, b, p, c, d, m);
  }

  /** Hangs the detached siblings mid below p, between the neighbours they had. */
  method Reroot<T>(ghost mid: Forest<T>, ghost own: set<TreeNode<T>>, first: TreeNode<T>, last: TreeNode<T>, p: TreeNode?<T>,
                   ghost p0: TreeNode?<T>, ghost a0: TreeNode?<T>, ghost b0: TreeNode?<T>)
    requires Siblings(mid, own, first, last) && Hangs(mid, p0, a0, b0)
    modifies own
    ensures Kept(own) && Hangs(mid, p, a0, b0)
  {
    SetRoots(mid, own, first, last, p, p0, a0, b0);
    forall m | m in own ensures m.Links() == LinkOf(mid, p, a0, b0, m) {
      NewParent(mid, p0, a0, b0, p, m);
    }
  }

  /** Hangs the detached siblings mid below p between a and b. */
  method Rehang<T>(ghost mid: Forest<T>, ghost own: set<TreeNode<T>>, first: TreeNode<T>, last: TreeNode<T>,
                   p: TreeNode?<T>, a: TreeNode?<T>, b: TreeNode?<T>,
                   ghost p0: TreeNode?<T>, ghost a0: TreeNode?<T>, ghost b0: TreeNode?<T>)
    requires Siblings(mid, own, first, last) && Hangs(mid, p0, a0, b0)
    modifies own
    ensures Hangs(mid, p, a, b) && Kept(own)
  {
    TopLabels(mid);
    Reroot(mid, own, first, last, p, p0, a0, b0);
    SetSides(own, first, last, a, b);
    forall m | m in own ensures m.Links() == LinkOf(mid, p, a, b, m) {
      NewSides(mid, p, a0, b0, a, b, m);
    }
  }

  lemma {:induction false} ChainOfRoots<T>(mid: Forest<T>, p: TreeNode?<T>, a: TreeNode?<T>, b: TreeNode?<T>)
    requires Distinct(mid) && Hangs(mid, p, a, b)
    ensures Chained(Roots(mid))
    ensures forall m :: m in Roots(mid) ==> m in Labels(mid)
  {
    TopLabels(mid);
    var rs := Roots(mid);
    forall i | 0 <= i < |rs| - 1 ensures rs[i].nextSibling == rs[i + 1] {
      TopLinks(mid, p, a, b, i);
    }
  }

  lemma {:induction false} Settled<T>(f: Forest<T>, g: Forest<T>, mid: Forest<T>, p: TreeNode?<T>, a: TreeNode?<T>, b: TreeNode?<T>)
    requires Edits(f, g, mid, p, a, b) && Hangs(mid, p, a, b)
    requires Labels(g) - Labels(mid) <= Labels(f)
    requires forall m :: m in Labels(g) - Labels(mid) ==>
      (m.alive && m.Links() == Adjust(PointersOf(f, m), m, p, a, b, Head(mid, b), Tail(mid, a)))
    ensures Stands(g, Labels(g))
  {
    forall m | m in Labels(g) ensures m.alive && m.Links() == PointersOf(g, m) {
      if m !in Labels(mid) { assert m in Labels(g) - Labels(mid); }
    }
  }

  /** A tree that hangs p between a and b hangs as the only child once its root is relinked. */
  lemma {:induction false} AboveHangs<T>(t: Tree<TreeNode<T>>, own: set<TreeNode<T>>, tmp: TreeNode<T>,
                      p: TreeNode?<T>, a: TreeNode?<T>, b: TreeNode?<T>)
    requires own == Labels([t]) && Distinct([t]) && tmp !in own
    requires t.op.Links() == LinkOf([t], tmp, null, null, t.op)
    requires t.op.alive && forall m :: m in own && m != t.op ==> m.alive && m.Links() == LinkOf([t], p, a, b, m)
    requires tmp.alive && tmp.Links() == Link(p, a, b, t.op, t.op)
    ensures Hangs([Node(tmp, [t])], p, a, b)
  {
    var mid := [Node(tmp, [t])];
    assert mid[1..] == [];
    forall m | m in Labels(mid) ensures m.alive && m.Links() == LinkOf(mid, p, a, b, m) {
      if m != tmp { Reframe([t], p, a, b, tmp, null, null, m); }
    }
  }

  /** Gives tmp the links of dst, and makes dst its only child. */
  method TakeLinks<T>(dst: TreeNode<T>, tmp: TreeNode<T>)
    requires dst != tmp
    modifies dst, tmp
    ensures tmp.Links() == Link(old(dst.parent), old(dst.prevSibling), old(dst.nextSibling), dst, dst)
    ensures dst.Links() == Link(tmp, null, null, old(dst.firstChild), old(dst.lastChild))
    ensures Kept({dst, tmp})
  {
    tmp.firstChild := dst;
    tmp.lastChild := dst;
    tmp.parent := dst.parent;
    tmp.prevSibling := dst.prevSibling;
    tmp.nextSibling := dst.nextSibling;
    dst.parent := tmp;
    dst.prevSibling := null;
    dst.nextSibling := null;
  }

  method TakePlace<T>(dst: TreeNode<T>, tmp: TreeNode<T>, ghost t: Tree<TreeNode<T>>, ghost own: set<TreeNode<T>>)
    requires t.op == dst && own == Labels([t]) && Distinct([t]) && dst in own && tmp !in own && tmp.alive
    requires Hangs([t], dst.parent, dst.prevSibling, dst.nextSibling)
    modifies dst, tmp
    ensures tmp.parent == old(dst.parent) && tmp.prevSibling == old(dst.prevSibling) && tmp.nextSibling == old(dst.nextSibling)
    ensures Hangs([Node(tmp, [t])], tmp.parent, tmp.prevSibling, tmp.nextSibling)
    ensures Kept(own + {tmp})
  {
    ghost var p, a, b := dst.parent, dst.prevSibling, dst.nextSibling;
    Reframe([t], p, a, b, tmp, null, null, dst);
    TakeLinks(dst, tmp);
    AboveHangs(t, own, tmp, p, a, b);
  }

  /** Hands back the storage of a node, once. */
  method Deallocate<T>(n: TreeNode<T>)
    requires n.alive
    modifies n`alive
    ensures !n.alive
  {
    n.alive := false;
  }

  /** Frees the nodes below the root of t. */
  method DropKids<T>(it: TreeNode<T>, ghost t: Tree<TreeNode<T>>, ghost own: set<TreeNode<T>>)
    requires it == t.op && own == Labels(t.kids) && it !in own && Distinct(t.kids)
    requires Hangs(t.kids, it, null, null) && it.firstChild == Head(t.kids, null)
    modifies it`firstChild, it`lastChild, own
    ensures it.firstChild == null && it.lastChild == null
    ensures forall m :: m in own ==> !m.alive
    decreases t, 0
  {
    var cur := it.firstChild;
    ghost var i, gone: set<TreeNode<T>> := 0, {};
    while cur != null
      invariant i <= |t.kids| && cur == Head(t.kids[i..], null)
      invariant gone + Labels(t.kids[i..]) == own && gone !! Labels(t.kids[i..])
      invariant forall m :: m in gone ==> !m.alive
      invariant Rests(t.kids, i, it)
      decreases |t.kids| - i
    {
      var prev := cur;
      KidAt(t.kids, it, i);
      cur := cur.nextSibling;
      ghost var dead := {prev} + Labels(t.kids[i].kids);
      DropTree(prev, t.kids[i], dead);
      i, gone := i + 1, gone + dead;
    }
    it.firstChild := null;
    it.lastChild := null;
  }

  /** Frees a node and everything below it. */
  method DropTree<T>(it: TreeNode<T>, ghost t: Tree<TreeNode<T>>, ghost own: set<TreeNode<T>>)
    requires it == t.op && own == {it} + Labels(t.kids) && it !in Labels(t.kids) && Distinct(t.kids) && it.alive
    requires Hangs(t.kids, it, null, null) && it.firstChild == Head(t.kids, null)
    modifies own
    ensures forall m :: m in own ==> !m.alive
    decreases t, 1
  {
    ghost var below := Labels(t.kids);
    assert below <= own;
    DropKids(it, t, below);
    Deallocate(it);
  }

  /** From the i-th on, the children of it still stand. */
  ghost predicate Rests<T>(kids: Forest<T>, i: nat, it: TreeNode<T>)
    requires i <= |kids|
    reads Labels(kids[i..])
  {
    forall m :: m in Labels(kids[i..]) ==> m in Labels(kids) && m.alive && m.Links() == LinkOf(kids, it, null, null, m)
  }

  lemma {:induction false} KidAt<T>(kids: Forest<T>, it: TreeNode<T>, i: nat)
    requires Distinct(kids) && i < |kids| && it !in Labels(kids) && Rests(kids, i, it)
    ensures var k := kids[i];
      && Labels(kids[i..]) == {k.op} + Labels(k.kids) + Labels(kids[i + 1..])
      && k.op !in Labels(k.kids) && k.op !in Labels(kids[i + 1..]) && Labels(k.kids) !! Labels(kids[i + 1..])
      && Distinct(k.kids) && Hangs(k.kids, k.op, null, null)
      && k.op.firstChild == Head(k.kids, null) && k.op.nextSibling == Head(kids[i + 1..], null)
  {
    var k := kids[i];
    SplitLabels(kids, i);
    assert kids[i..][1..] == kids[i + 1..];
    TopLinks(kids, it, null, null, i);
    TopFind(kids, i);
    EndsOfKids(kids, it, null, null, k.op);
    forall m | m in Labels(k.kids) ensures m.alive && m.Links() == LinkOf(k.kids, k.op, null, null, m) {
      InsideKids(kids, it, null, null, k.op, m);
    }
  }

  /** Connects the neighbours of mid, and leaves mid as it hangs. */
  method ConnectAround<T>(ghost f: Forest<T>, ghost mid: Forest<T>, ghost own: set<TreeNode<T>>, ghost stay: set<TreeNode<T>>,
                          p: TreeNode?<T>, a: TreeNode?<T>, b: TreeNode?<T>, h: TreeNode?<T>, t: TreeNode?<T>)
    requires own == Labels(mid) && own !! stay && Neighbours(stay, p, a, b)
    requires Stands(f, stay) && Hangs(mid, p, a, b)
    modifies p, a, b
    ensures Hangs(mid, p, a, b) && Kept(stay + own)
    ensures forall m :: m in stay ==> m in Labels(f) && m.alive && m.Links() == Adjust(PointersOf(f, m), m, p, a, b, h, t)
  {
    Connect(p, a, b, h, t, stay);
    forall m | m in own ensures m.alive && m.Links() == LinkOf(mid, p, a, b, m) {
      assert m != p && m != a && m != b;
    }
  }

  /** Connects the neighbours of mid: then all that stays and mid stand as in g. */
  method Resettle<T>(ghost f: Forest<T>, ghost g: Forest<T>, ghost mid: Forest<T>, ghost own: set<TreeNode<T>>, ghost stay: set<TreeNode<T>>,
                     p: TreeNode?<T>, a: TreeNode?<T>, b: TreeNode?<T>, h: TreeNode?<T>, t: TreeNode?<T>)
    requires own == Labels(mid) && own !! stay && Labels(g) == stay + own && Neighbours(stay, p, a, b)
    requires Stands(f, stay) && Hangs(mid, p, a, b) && Edits(f, g, mid, p, a, b)
    requires h == Head(mid, b) && t == Tail(mid, a)
    modifies p, a, b
    ensures Stands(g, stay + own) && Kept(stay + own)
  {
    ConnectAround(f, mid, own, stay, p, a, b, h, t);
    assert Labels(g) - Labels(mid) == stay;
    Settled(f, g, mid, p, a, b);
  }

  class LinkedTree<T> {
    const head: TreeNode<T>
    const feet: TreeNode<T>
    ghost var shape: Forest<T>
    ghost var nodes: set<TreeNode<T>>

    ghost predicate Valid()
      reads this, nodes
    {
      nodes == Labels(shape) && Bounded(shape, head, feet) && Stands(shape, nodes)
    }

    /** The empty tree: the two sentinels side by side. */
    constructor (x: T)
      ensures Valid() && shape == [Leaf(head), Leaf(feet)]
      ensures fresh(head) && fresh(feet)
    {
      head := new TreeNode(x);
      feet := new TreeNode(x);
      new;
      head.nextSibling := feet;
      feet.prevSibling := head;
      shape, nodes := [Leaf(head), Leaf(feet)], {head, feet};
      SentinelLinks(head, feet);
    }

    /** Closes the pointers around mid, whose own nodes already carry theirs. */
    method Place(ghost g: Forest<T>, ghost mid: Forest<T>, ghost own: set<TreeNode<T>>,
                 p: TreeNode?<T>, a: TreeNode?<T>, b: TreeNode?<T>, h: TreeNode?<T>, t: TreeNode?<T>)
      requires own == Labels(mid) && Labels(g) - own <= nodes == Labels(shape)
      requires Bounded(g, head, feet) && Edits(shape, g, mid, p, a, b)
      requires h == Head(mid, b) && t == Tail(mid, a)
      requires Neighbours(nodes * Labels(g) - own, p, a, b)
      requires Stands(shape, nodes * Labels(g) - own) && Hangs(mid, p, a, b)
      modifies this, p, a, b
      ensures Valid() && shape == g && nodes == old(nodes) * Labels(g) + own
      ensures Kept(old(nodes) + own)
    {
      ghost var stay := nodes * Labels(g) - own;
      Resettle(shape, g, mid, own, stay, p, a, b, h, t);
      shape, nodes := g, stay + own;
    }

    /** Takes the k siblings from first to last out of the list they stand in. */
    method Unlink(first: TreeNode<T>, last: TreeNode<T>, ghost k: nat)
      requires Valid() && Inner(shape, head, feet, first, k)
      requires k > 0 && last == Run(shape, first)[k - 1].op
      modifies this, nodes - Gone(shape, first, k)
      ensures Valid() && shape == Splice(old(shape), first, k, []) && nodes == old(nodes - Gone(shape, first, k))
      ensures Kept(nodes)
    {
      UnlinkEdit(shape, head, feet, first, k);
      Place(Splice(shape, first, k, []), [], {}, first.parent, first.prevSibling, last.nextSibling,
            last.nextSibling, first.prevSibling);
    }

    /** Unlinks the siblings, which stay a list of their own. */
    method Detach(first: TreeNode<T>, last: TreeNode<T>, ghost k: nat) returns (ghost own: set<TreeNode<T>>)
      requires Valid() && Inner(shape, head, feet, first, k)
      requires k > 0 && last == Run(shape, first)[k - 1].op
      modifies this, nodes - Gone(shape, first, k)
      ensures Valid() && shape == Splice(old(shape), first, k, [])
      ensures own == old(Gone(shape, first, k)) && nodes == old(nodes) - own && own <= old(nodes)
      ensures Kept(old(nodes))
      ensures Siblings(old(Run(shape, first)[..k]), own, first, last)
      ensures Hangs(old(Run(shape, first)[..k]), old(first.parent), old(first.prevSibling), old(Right(shape, first, k, null)))
    {
      own := Gone(shape, first, k);
      RunHangs(first, k);
      Unlink(first, last, k);
    }

    lemma {:induction false} SubtreeHangs(n: TreeNode<T>)
      requires Valid() && n in nodes
      ensures var t, own := Find(shape, n), Gone(shape, n, 1);
        && Labels([t]) == own && own <= nodes && n in own && Distinct([t])
        && Hangs([t], n.parent, n.prevSibling, n.nextSibling)
    {
      RunHangs(n, 1);
      FindLabels(shape, n);
      RunLinks(shape, null, null, null, n, 0);
      assert Run(shape, n)[..1] == [Find(shape, n)];
    }

    /** Inside a run the pointers are those of the run between its neighbours. */
    lemma {:induction false} RunHangs(n: TreeNode<T>, k: nat)
      requires Valid() && n in nodes && k <= |Run(shape, n)|
      ensures Gone(shape, n, k) <= nodes
      ensures k > 0 ==> Siblings(Run(shape, n)[..k], Gone(shape, n, k), n, Run(shape, n)[k - 1].op)
      ensures Hangs(Run(shape, n)[..k], n.parent, n.prevSibling, Right(shape, n, k, null))
    {
      GoneLabels(shape, n, k);
      RunLabels(shape, n);
      SplitLabels(Run(shape, n), k);
      forall m | m in Gone(shape, n, k)
        ensures m.alive && m.Links() == LinkOf(Run(shape, n)[..k], n.parent, n.prevSibling, Right(shape, n, k, null), m)
      {
        InsideRun(shape, null, null, null, n, k, m);
      }
    }

    /** Hangs the new leaf tmp below p between a and b. */
    method PlaceLeaf(tmp: TreeNode<T>, p: TreeNode?<T>, a: TreeNode?<T>, b: TreeNode?<T>, ghost g: Forest<T>)
      requires Valid() && tmp !in nodes && GraftEdit(shape, g, head, feet, [Leaf(tmp)], p, a, b)
      requires tmp.alive && tmp.firstChild == null && tmp.lastChild == null
      modifies this, nodes, tmp
      ensures Valid() && shape == g && nodes == old(nodes) + {tmp}
      ensures Kept(old(nodes) + {tmp})
    {
      tmp.parent := p;
      tmp.prevSibling := a;
      tmp.nextSibling := b;
      LeafLinks(tmp, p, a, b);
      Place(g, [Leaf(tmp)], {tmp}, p, a, b, tmp, tmp);
    }

    /** Adds a new leaf to the left of position. */
    method Insert(position: TreeNode<T>, x: T) returns (tmp: TreeNode<T>)
      requires Valid() && position in nodes && position != head
      modifies this, nodes
      ensures Valid() && shape == Splice(old(shape), position, 0, [Leaf(tmp)])
      ensures fresh(tmp) && tmp.data == x && nodes == old(nodes) + {tmp} && Kept(old(nodes))
    {
      tmp := new TreeNode(x);
      NewLeaf(shape, position, tmp);
      InsertEdit(shape, head, feet, position, [Leaf(tmp)]);
      PlaceLeaf(tmp, position.parent, position.prevSibling, position, Splice(shape, position, 0, [Leaf(tmp)]));
    }

    /** Adds a new leaf to the right of position. */
    method InsertAfter(position: TreeNode<T>, x: T) returns (tmp: TreeNode<T>)
      requires Valid() && position in nodes && position != head && position != feet
      modifies this, nodes
      ensures Valid() && shape == Beside(old(shape), position, [Leaf(tmp)])
      ensures fresh(tmp) && tmp.data == x && nodes == old(nodes) + {tmp} && Kept(old(nodes))
    {
      tmp := new TreeNode(x);
      NewLeaf(shape, position, tmp);
      InsertAfterEdit(shape, head, feet, position, [Leaf(tmp)]);
      PlaceLeaf(tmp, position.parent, position, position.nextSibling, Beside(shape, position, [Leaf(tmp)]));
    }

    /** Adds a new leaf behind the children of position. */
    method AppendChild(position: TreeNode<T>, x: T) returns (tmp: TreeNode<T>)
      requires Valid() && position in nodes && position != head && position != feet
      modifies this, nodes
      ensures Valid() && shape == Below(old(shape), position, [Leaf(tmp)])
      ensures fresh(tmp) && tmp.data == x && nodes == old(nodes) + {tmp} && Kept(old(nodes))
    {
      tmp := new TreeNode(x);
      NewLeaf(shape, position, tmp);
      AppendEdit(shape, head, feet, position, [Leaf(tmp)]);
      PlaceLeaf(tmp, position, position.lastChild, null, Below(shape, position, [Leaf(tmp)]));
    }

    /** Puts the detached siblings mid, from first to last, between a and b below p. */
    method Graft(ghost g: Forest<T>, ghost mid: Forest<T>, ghost own: set<TreeNode<T>>,
                 first: TreeNode<T>, last: TreeNode<T>, p: TreeNode?<T>, a: TreeNode?<T>, b: TreeNode?<T>,
                 ghost p0: TreeNode?<T>, ghost a0: TreeNode?<T>, ghost b0: TreeNode?<T>)
      requires Valid() && Siblings(mid, own, first, last) && Hangs(mid, p0, a0, b0)
      requires GraftEdit(shape, g, head, feet, mid, p, a, b)
      modifies this, nodes, own
      ensures Valid() && shape == g && nodes == old(nodes) + own
      ensures Kept(nodes)
    {
      Rehang(mid, own, first, last, p, a, b, p0, a0, b0);
      Place(g, mid, own, p, a, b, first, last);
    }

    /** Moves the subtree at source to the right of target. */
    method MoveAfter(target: TreeNode<T>, source: TreeNode<T>)
      requires Valid() && Movable(shape, head, feet, target, source)
      modifies this, nodes
      ensures Valid() && shape == MovedAfter(old(shape), target, source)
      ensures nodes == old(nodes) && Kept(nodes)
    {
      MovableFacts(shape, head, feet, target, source);
      if target.nextSibling == source {
        AlreadyAfter(shape, target, source);
        return;
      }
      ReplantAfter(target, source);
    }

    method ReplantAfter(target: TreeNode<T>, source: TreeNode<T>)
      requires Valid() && Movable(shape, head, feet, target, source)
      modifies this, nodes
      ensures Valid() && shape == MovedAfter(old(shape), target, source)
      ensures nodes == old(nodes) && Kept(nodes)
    {
      MovableFacts(shape, head, feet, target, source);
      ghost var t, l := Find(shape, source), source.Links();
      ghost var own := Detach(source, source, 1);
      InsertAfterEdit(shape, head, feet, target, [t]);
      Graft(Beside(shape, target, [t]), [t], own, source, source, target.parent, target, target.nextSibling,
            l.parent, l.prev, l.next);
    }

    /** Moves the subtree at source to the left of target. */
    method MoveBefore(target: TreeNode<T>, source: TreeNode<T>)
      requires Valid() && Movable(shape, head, feet, target, source)
      modifies this, nodes
      ensures Valid() && shape == MovedBefore(old(shape), target, source)
      ensures nodes == old(nodes) && Kept(nodes)
    {
      MovableFacts(shape, head, feet, target, source);
      if target.prevSibling == source {
        AlreadyBefore(shape, target, source);
        return;
      }
      ReplantBefore(target, source);
    }

    method ReplantBefore(target: TreeNode<T>, source: TreeNode<T>)
      requires Valid() && Movable(shape, head, feet, target, source)
      modifies this, nodes
      ensures Valid() && shape == MovedBefore(old(shape), target, source)
      ensures nodes == old(nodes) && Kept(nodes)
    {
      MovableFacts(shape, head, feet, target, source);
      ghost var t, l := Find(shape, source), source.Links();
      ghost var own := Detach(source, source, 1);
      InsertEdit(shape, head, feet, target, [t]);
      Graft(Splice(shape, target, 0, [t]), [t], own, source, source, target.parent, target.prevSibling, target,
            l.parent, l.prev, l.next);
    }

    /** Moves the siblings from begin up to, but not including, end behind the
        children of position. */
    method Reparent(position: TreeNode<T>, begin: TreeNode<T>, end: TreeNode?<T>, ghost k: nat)
      requires Valid() && Reparentable(shape, head, feet, position, begin, k)
      requires end == Right(shape, begin, k, null)
      modifies this, nodes
      ensures Valid() && shape == Reparented(old(shape), position, begin, k)
      ensures nodes == old(nodes) && Kept(nodes)
    {
      ReparentFacts(shape, head, feet, position, begin, k);
      if begin == end { return; }
      var last := LastBefore(begin, end, k);
      MoveBelow(position, begin, last, end, k);
    }

    /** Moves the siblings from first to last behind the children of position. */
    method MoveBelow(position: TreeNode<T>, first: TreeNode<T>, last: TreeNode<T>, ghost end: TreeNode?<T>, ghost k: nat)
      requires Valid() && Reparentable(shape, head, feet, position, first, k)
      requires k > 0 && last == Run(shape, first)[k - 1].op && end == Right(shape, first, k, null)
      modifies this, nodes
      ensures Valid() && shape == Reparented(old(shape), position, first, k)
      ensures nodes == old(nodes) && Kept(nodes)
    {
      ReparentFacts(shape, head, feet, position, first, k);
      ghost var run, l := Run(shape, first)[..k], first.Links();
      ghost var own := Detach(first, last, k);
      AppendEdit(shape, head, feet, position, run);
      Graft(Below(shape, position, run), run, own, first, last, position, position.lastChild, null,
            l.parent, l.prev, end);
    }

    /** The last of the k siblings from begin up to, but not including, end. */
    method LastBefore(begin: TreeNode<T>, end: TreeNode?<T>, ghost k: nat) returns (last: TreeNode<T>)
      requires Valid() && begin in nodes && 0 < k <= |Run(shape, begin)| && end == Right(shape, begin, k, null)
      ensures last == Run(shape, begin)[k - 1].op
    {
      last := begin;
      var next := begin.nextSibling;
      ghost var i := 1;
      RunLinks(shape, null, null, null, begin, 0);
      while next != end
        invariant 1 <= i <= k && last == Run(shape, begin)[i - 1].op && next == Right(shape, begin, i, null)
        decreases k - i
      {
        RunLinks(shape, null, null, null, begin, i);
        last, next, i := next, next.nextSibling, i + 1;
      }
      RightDistinct(shape, begin, i, k);
    }

    /** Puts a new node in the place of position, with position as its only child. */
    method InsertAbove(position: TreeNode<T>, x: T) returns (tmp: TreeNode<T>)
      requires Valid() && position in nodes && position != head && position != feet
      modifies this, nodes
      ensures Valid() && shape == Wrapped(old(shape), position, tmp)
      ensures fresh(tmp) && tmp.data == x && nodes == old(nodes) + {tmp} && Kept(old(nodes))
    {
      tmp := new TreeNode(x);
      PlaceAbove(position, tmp);
    }

    method PlaceAbove(position: TreeNode<T>, tmp: TreeNode<T>)
      requires Valid() && position in nodes && position != head && position != feet
      requires tmp !in nodes && tmp.alive
      modifies this, nodes, tmp
      ensures Valid() && shape == Wrapped(old(shape), position, tmp)
      ensures nodes == old(nodes) + {tmp} && Kept(nodes)
    {
      ghost var t, own := Find(shape, position), Gone(shape, position, 1);
      SubtreeHangs(position);
      WrapEdit(shape, head, feet, position, tmp);
      TakePlace(position, tmp, t, own);
      Place(Wrapped(shape, position, tmp), [Node(tmp, [t])], own + {tmp}, tmp.parent, tmp.prevSibling, tmp.nextSibling, tmp, tmp);
    }

    /** Frees everything below position. */
    method EraseChildren(position: TreeNode<T>)
      requires Valid() && position in nodes && position != head && position != feet
      modifies this, nodes
      ensures Valid() && shape == Childless(old(shape), position)
      ensures nodes == old(nodes - Labels(Find(shape, position).kids)) && Kept(nodes)
      ensures forall m :: m in old(nodes) && m !in nodes ==> !m.alive
    {
      ghost var f, t := shape, Find(shape, position);
      ghost var own := Labels(t.kids);
      KidsHang(position);
      ChildlessLinks(f, head, feet, position);
      DropKids(position, t, own);
      shape, nodes := Childless(f, position), nodes - own;
      forall m | m in nodes ensures m.alive && m.Links() == PointersOf(shape, m) {}
    }

    /** The pointers below a node are those of its child list. */
    lemma {:induction false} KidsHang(n: TreeNode<T>)
      requires Valid() && n in nodes
      ensures var t := Find(shape, n);
        && n !in Labels(t.kids) && Labels(t.kids) <= nodes && Distinct(t.kids)
        && n.firstChild == Head(t.kids, null) && n.lastChild == Tail(t.kids, null)
        && Hangs(t.kids, n, null, null)
    {
      var t := Find(shape, n);
      FindLabels(shape, n);
      EndsOfKids(shape, null, null, null, n);
      forall m | m in Labels(t.kids) ensures m.alive && m.Links() == LinkOf(t.kids, n, null, null, m) {
        InsideKids(shape, null, null, null, n, m);
      }
    }

    /** Removes position with everything below it. */
    method Erase(position: TreeNode<T>)
      requires Valid() && position in nodes && position != head && position != feet
      modifies this, nodes
      ensures Valid() && shape == Splice(old(shape), position, 1, [])
      ensures nodes == old(nodes - Gone(shape, position, 1)) && Kept(nodes)
      ensures forall m :: m in old(nodes) && m !in nodes ==> !m.alive
    {
      ChildlessAgain(shape, head, feet, position, []);
      EraseChildren(position);
      Unlink(position, position, 1);
      Deallocate(position);
    }

    /** Moves the children of position up, to its right. */
    method Flatten(position: TreeNode<T>)
      requires Valid() && position in nodes && position != head && position != feet
      modifies this, nodes
      ensures Valid() && shape == Flattened(old(shape), position)
      ensures nodes == old(nodes) && Kept(nodes)
    {
      FlattenedFacts(shape, head, feet, position);
      if position.firstChild == null { return; }
      ghost var kids := Find(shape, position).kids;
      var first, last := position.firstChild, position.lastChild;
      ghost var own := Orphan(position);
      InsertAfterEdit(shape, head, feet, position, kids);
      Graft(Beside(shape, position, kids), kids, own, first, last, position.parent, position, position.nextSibling,
            position, null, null);
    }

    /** Lets go of the children of position, which stay a list of their own. */
    method Orphan(position: TreeNode<T>) returns (ghost own: set<TreeNode<T>>)
      requires Valid() && position in nodes && position != head && position != feet
      modifies this, position
      ensures Valid() && shape == Childless(old(shape), position)
      ensures var kids := old(Find(shape, position).kids);
        own == Labels(kids) && own <= old(nodes) && Hangs(kids, position, null, null)
      ensures nodes == old(nodes) - own && Kept(old(nodes))
    {
      own := Labels(Find(shape, position).kids);
      KidsHang(position);
      ChildlessLinks(shape, head, feet, position);
      position.firstChild := null;
      position.lastChild := null;
      shape, nodes := Childless(shape, position), nodes - own;
    }

    /** Puts a new node in the place of position, with position as its only child. */
    method Wrap(position: TreeNode<T>, x: T) returns (tmp: TreeNode<T>)
      requires Valid() && position in nodes && position != head && position != feet
      modifies this, nodes
      ensures Valid() && shape == Wrapped(old(shape), position, tmp)
      ensures fresh(tmp) && tmp.data == x && nodes == old(nodes) + {tmp} && Kept(old(nodes))
    {
      ghost var f := shape;
      var end := position.nextSibling;
      tmp := Insert(position, x);
      WrapFacts(f, head, feet, position, tmp);
      Reparent(tmp, position, end, 1);
    }

    /** What validate asserts of a node: its neighbours point back at it. */
    lemma {:induction false} Validates(n: TreeNode<T>)
      requires Valid() && n in nodes
      ensures n.parent != null ==> n.parent in nodes
      ensures n.parent != null && n.prevSibling == null ==> n.parent.firstChild == n
      ensures n.parent != null && n.nextSibling == null ==> n.parent.lastChild == n
      ensures n.prevSibling != null ==> n.prevSibling in nodes && n.prevSibling.nextSibling == n
      ensures n.nextSibling != null ==> n.nextSibling in nodes && n.nextSibling.prevSibling == n
    {
      LinkTargets(shape, null, null, null, n);
      RightTargets(shape, n, 1, null);
      RunLinks(shape, null, null, null, n, 0);
      NeighboursOutside(shape, null, null, null, n, 1);
      forall m | m in nodes && m in {n.parent, n.prevSibling, n.nextSibling}
        ensures m.Links() == Adjust(m.Links(), m, n.parent, n.prevSibling, n.nextSibling, n, n)
      {
        Mirrored(shape, null, null, null, n, 1, m);
      }
    }
  }
  /** One tree, or two without a common node. */
  ghost predicate SameOrApart<T>(tree: LinkedTree<T>, other: LinkedTree<T>)
    reads tree, other
  {
    other == tree || other.nodes !! tree.nodes
  }
}
