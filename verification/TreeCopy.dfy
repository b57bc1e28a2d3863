/** Copying one subtree over another node by a single descend-and-climb loop. */
module TreeCopies {
  import opened Trees
  import opened TreeLinks
  import opened TreeEdits
  import opened LinkedTrees

  /** A tree with one place left open. */
  datatype Context<+N> = Root | Within(up: Context<N>, op: N, left: seq<Tree<N>>, right: seq<Tree<N>>)

  ghost function Plug<N>(c: Context<N>, t: Tree<N>): Tree<N> {
    match c
    case Root => t
    case Within(up, op, left, right) => Plug(up, Node(op, left + [t] + right))
  }

  /** Number of nodes to the right of the open place. */
  ghost function Pending<N>(c: Context<N>): nat {
    if c.Root? then 0 else SizeAll(c.right) + Pending(c.up)
  }

  lemma {:induction false} PlugFind<N>(c: Context<N>, t: Tree<N>)
    requires Distinct([Plug(c, t)])
    ensures Distinct([t]) && t.op in Labels([Plug(c, t)]) && Find([Plug(c, t)], t.op) == t
    ensures Labels([t]) <= Labels([Plug(c, t)])
  {
    if c.Within? {
      var u := Node(c.op, c.left + [t] + c.right);
      PlugFind(c.up, u);
      Single(u);
      LabelsConcat(c.left + [t], c.right);
      LabelsConcat(c.left, [t]);
      FindBelow([Plug(c.up, u)], c.op, t.op);
      TopFind(u.kids, |c.left|);
    }
  }

  lemma {:induction false} PlugSplice<N>(c: Context<N>, t: Tree<N>, u: Tree<N>)
    requires Distinct([Plug(c, t)]) && u.op == t.op
    ensures t.op in Labels([Plug(c, t)]) && Splice([Plug(c, t)], t.op, 1, [u]) == [Plug(c, u)]
  {
    PlugFind(c, t);
    if c.Within? {
      var v := Node(c.op, c.left + [t] + c.right);
      PlugFind(c.up, v);
      PlugSplice(c.up, v, Node(c.op, c.left + [u] + c.right));
      Single(v);
      SpliceTop(c.left, t, c.right, u);
      SpliceWithin([Plug(c.up, v)], c.op, t.op, [u]);
    } else {
      Single(t);
    }
  }

  lemma {:induction false} SpliceTop<N>(left: seq<Tree<N>>, t: Tree<N>, right: seq<Tree<N>>, u: Tree<N>)
    requires Distinct(left + [t] + right)
    ensures t.op in Labels(left + [t] + right) && 1 <= |Run(left + [t] + right, t.op)|
    ensures Splice(left + [t] + right, t.op, 1, [u]) == left + [u] + right
  {
    var f := left + [t] + right;
    TopIsLabel(f, |left|);
    if left == [] {
      assert f[1..] == right;
    } else {
      var g := left[1..] + [t] + right;
      assert f[1..] == g;
      SpliceTop(left[1..], t, right, u);
    }
  }

  /** Editing below n is editing the child list of n. */
  lemma {:induction false} SpliceWithin<N>(f: seq<Tree<N>>, n: N, m: N, mid: seq<Tree<N>>)
    requires Distinct(f) && n in Labels(f) && m in Labels(Find(f, n).kids)
    ensures m in Labels(f)
    ensures Splice(f, m, 1, mid) == Splice(f, n, 1, [Node(n, Splice(Find(f, n).kids, m, 1, mid))])
  {
    FindBelow(f, n, m);
    FindLabels(f, n);
    if n != f[0].op {
      if n in Labels(f[0].kids) {
        FindLabels(f[0].kids, n);
        SpliceWithin(f[0].kids, n, m, mid);
      } else {
        FindLabels(f[1..], n);
        SpliceWithin(f[1..], n, m, mid);
      }
    }
  }

  /** The pointers of the node in the open place. */
  lemma {:induction false} PlugLinks<T>(c: Context<TreeNode<T>>, t: Tree<TreeNode<T>>,
                                        p: TreeNode?<T>, a: TreeNode?<T>, b: TreeNode?<T>)
    requires Distinct([Plug(c, t)]) && Outside([Plug(c, t)], p, a, b)
    ensures t.op in Labels([Plug(c, t)])
    ensures var l := LinkOf([Plug(c, t)], p, a, b, t.op);
      && l.first == Head(t.kids, null)
      && (c.Root? ==> l.next == b)
      && (c.Within? ==> l.parent == c.op && l.next == Head(c.right, null))
  {
    PlugFind(c, t);
    var f := [Plug(c, t)];
    EndsOfKids(f, p, a, b, t.op);
    if c.Within? {
      var u := Node(c.op, c.left + [t] + c.right);
      PlugFind(c.up, u);
      Single(u);
      TopLinks(u.kids, c.op, null, null, |c.left|);
      assert u.kids[|c.left| + 1..] == c.right;
      InsideKids(f, p, a, b, c.op, t.op);
    }
  }

  lemma {:induction false} PlugBelow<N>(c: Context<N>, t: Tree<N>)
    requires Distinct([Plug(c, t)]) && c.Within?
    ensures Labels([t]) <= Labels(Plug(c, t).kids)
    ensures t.op in Labels(Plug(c, t).kids) && t.op != Plug(c, t).op
  {
    Single(t);
    var u := Node(c.op, c.left + [t] + c.right);
    PlugFind(c.up, u);
    Single(u);
    Single(Plug(c, t));
    LabelsConcat(c.left + [t], c.right);
    LabelsConcat(c.left, [t]);
    if c.up.Within? { PlugBelow(c.up, u); }
  }

  /** The pointers of the open place when the filled context is the subtree at n. */
  lemma {:induction false} SubtreeLinks<T>(f: Forest<T>, n: TreeNode<T>, c: Context<TreeNode<T>>, t: Tree<TreeNode<T>>)
    requires Distinct(f) && n in Labels(f) && Find(f, n) == Plug(c, t)
    ensures t.op in Labels(f)
    ensures c.Root? <==> t.op == n
    ensures PointersOf(f, t.op).first == Head(t.kids, null)
    ensures c.Within? ==> PointersOf(f, t.op).parent == c.op && PointersOf(f, t.op).next == Head(c.right, null)
  {
    if c.Root? {
      EndsOfKids(f, null, null, null, n);
    } else {
      InnerLinks(f, n, c, t);
    }
  }

  lemma {:induction false} InnerLinks<T>(f: Forest<T>, n: TreeNode<T>, c: Context<TreeNode<T>>, t: Tree<TreeNode<T>>)
    requires Distinct(f) && n in Labels(f) && Find(f, n) == Plug(c, t) && c.Within?
    ensures t.op in Labels(f) && t.op != n
    ensures PointersOf(f, t.op).first == Head(t.kids, null)
    ensures PointersOf(f, t.op).parent == c.op && PointersOf(f, t.op).next == Head(c.right, null)
  {
    FindLabels(f, n);
    PlugBelow(c, t);
    InsideSubtree(f, n, t.op);
    OpenPlace(c, t);
  }

  /** PlugLinks for a tree that hangs nowhere. */
  lemma {:induction false} OpenPlace<T>(c: Context<TreeNode<T>>, t: Tree<TreeNode<T>>)
    requires Distinct([Plug(c, t)]) && c.Within?
    ensures t.op in Labels([Plug(c, t)])
    ensures var l := LinkOf([Plug(c, t)], null, null, null, t.op);
      l.first == Head(t.kids, null) && l.parent == c.op && l.next == Head(c.right, null)
  {
    PlugLinks(c, t, null, null, null);
  }

  lemma {:induction false} InsideSubtree<T>(f: Forest<T>, n: TreeNode<T>, m: TreeNode<T>)
    requires Distinct(f) && n in Labels(f) && m in Labels(Find(f, n).kids)
    ensures m in Labels(f) && PointersOf(f, m) == LinkOf([Find(f, n)], null, null, null, m)
  {
    FindLabels(f, n);
    InsideKids(f, null, null, null, n, m);
  }

  /** An edit at n leaves a subtree elsewhere, and its right neighbour, alone. */
  lemma {:induction false} Elsewhere<T>(f: Forest<T>, n: TreeNode<T>, t: Tree<TreeNode<T>>, x: TreeNode<T>, b: TreeNode?<T>)
    requires n in Labels(f) && x in Labels(f) && Distinct(f)
    requires x !in Gone(f, n, 1) && n !in Gone(f, x, 1) && x !in Labels([t])
    ensures var g := Splice(f, n, 1, [t]);
      x in Labels(g) && Find(g, x) == Find(f, x) && (t.op == n ==> Right(g, x, 1, b) == Right(f, x, 1, b))
    decreases f, 1
  {
    var g := Splice(f, n, 1, [t]);
    GoneLabels(f, x, 1);
    GoneLabels(f, n, 1);
    FindLabels(f, x);
    FindLabels(f, n);
    Single(t);
    if f[0].op == n {
      assert g == [t] + f[1..] && g[1..] == f[1..];
    } else if n in Labels(f[0].kids) {
      ElsewhereBelow(f, n, t, x, b);
    } else {
      assert g[0] == f[0] && g[1..] == Splice(f[1..], n, 1, [t]);
      if f[0].op == x {
        assert t.op == n ==> Head(g[1..], b) == Head(f[1..], b);
      } else if x !in Labels(f[0].kids) {
        FindLabels(f[1..], x);
        FindLabels(f[1..], n);
        Elsewhere(f[1..], n, t, x, b);
      }
    }
  }

  lemma {:induction false} ElsewhereBelow<T>(f: Forest<T>, n: TreeNode<T>, t: Tree<TreeNode<T>>, x: TreeNode<T>, b: TreeNode?<T>)
    requires n in Labels(f) && x in Labels(f) && Distinct(f)
    requires x !in Gone(f, n, 1) && n !in Gone(f, x, 1) && x !in Labels([t])
    requires f[0].op != n && n in Labels(f[0].kids)
    ensures var g := Splice(f, n, 1, [t]);
      x in Labels(g) && Find(g, x) == Find(f, x) && (t.op == n ==> Right(g, x, 1, b) == Right(f, x, 1, b))
    decreases f, 0
  {
    var g := Splice(f, n, 1, [t]);
    FindLabels(f, x);
    FindLabels(f, n);
    FindLabels(f[0].kids, n);
    assert g[0] == Node(f[0].op, Splice(f[0].kids, n, 1, [t])) && g[1..] == f[1..];
    assert x != f[0].op;
    if x in Labels(f[0].kids) {
      FindLabels(f[0].kids, x);
      Elsewhere(f[0].kids, n, t, x, null);
    } else {
      SpliceWithinBoth(f[0].kids, n, [t]);
    }
  }

  lemma {:induction false} SpliceWithinBoth<N>(f: seq<Tree<N>>, n: N, mid: seq<Tree<N>>)
    requires n in Labels(f)
    ensures Labels(Splice(f, n, 1, mid)) <= Labels(f) + Labels(mid)
  {
    if f[0].op == n {
      LabelsConcat(mid, f[1..]);
    } else if n in Labels(f[0].kids) {
      SpliceWithinBoth(f[0].kids, n, mid);
    } else {
      SpliceWithinBoth(f[1..], n, mid);
    }
  }

  // ---------- which node was copied from which ----------

  ghost function Relabel<N, M>(f: seq<Tree<N>>, origin: map<N, M>): seq<Tree<M>>
    requires Labels(f) <= origin.Keys
  {
    if f == [] then [] else [Node(origin[f[0].op], Relabel(f[0].kids, origin))] + Relabel(f[1..], origin)
  }

  lemma {:induction false} RelabelConcat<N, M>(f: seq<Tree<N>>, g: seq<Tree<N>>, origin: map<N, M>)
    requires Labels(f + g) <= origin.Keys
    ensures Labels(f) <= origin.Keys && Labels(g) <= origin.Keys
    ensures Relabel(f + g, origin) == Relabel(f, origin) + Relabel(g, origin)
  {
    LabelsConcat(f, g);
    if f == [] {
      assert f + g == g;
    } else {
      assert (f + g)[1..] == f[1..] + g;
      RelabelConcat(f[1..], g, origin);
      var head := [Node(origin[f[0].op], Relabel(f[0].kids, origin))];
      assert Relabel(f + g, origin) == head + Relabel(f[1..] + g, origin);
      Associate(head, Relabel(f[1..], origin), Relabel(g, origin));
    }
  }

  lemma {:induction false} Associate<A>(a: seq<A>, b: seq<A>, c: seq<A>)
    ensures a + (b + c) == a + b + c
  {
  }

  lemma {:induction false} RelabelMore<N, M>(f: seq<Tree<N>>, origin: map<N, M>, x: N, y: M)
    requires Labels(f) <= origin.Keys && x !in origin
    ensures Relabel(f, origin[x := y]) == Relabel(f, origin)
  {
    if f != [] {
      RelabelMore(f[0].kids, origin, x, y);
      RelabelMore(f[1..], origin, x, y);
    }
  }

  /** So far the context d is a copy of the context s, and grows at its right edge. */
  ghost predicate Paired<N>(s: Context<N>, d: Context<N>, origin: map<N, N>) {
    match (s, d)
    case (Root, Root) => true
    case (Within(_, _, _, _), Within(_, _, _, _)) =>
      && d.right == [] && d.op in origin && origin[d.op] == s.op
      && Labels(d.left) <= origin.Keys && Relabel(d.left, origin) == s.left
      && Paired(s.up, d.up, origin)
    case _ => false
  }

  lemma {:induction false} PairedMore<N>(s: Context<N>, d: Context<N>, origin: map<N, N>, x: N, y: N)
    requires Paired(s, d, origin) && x !in origin
    ensures Paired(s, d, origin[x := y])
  {
    if s.Within? {
      RelabelMore(d.left, origin, x, y);
      PairedMore(s.up, d.up, origin, x, y);
    }
  }

  lemma {:induction false} RelabelSingle<N, M>(t: Tree<N>, origin: map<N, M>)
    requires Labels([t]) <= origin.Keys
    ensures t.op in origin && Labels(t.kids) <= origin.Keys
    ensures Relabel([t], origin) == [Node(origin[t.op], Relabel(t.kids, origin))]
  {
    Single(t);
    assert [t][1..] == [];
  }

  /** A finished child joins the children copied before it. */
  lemma {:induction false} RelabelChild<N>(s: Context<N>, t: Tree<N>, d: Context<N>, u: Tree<N>, origin: map<N, N>)
    requires Paired(s, d, origin) && s.Within?
    requires Labels([u]) <= origin.Keys && Relabel([u], origin) == [t]
    ensures Labels(d.left + [u]) <= origin.Keys && Relabel(d.left + [u], origin) == s.left + [t]
  {
    LabelsConcat(d.left, [u]);
    RelabelConcat(d.left, [u], origin);
  }

  // ---------- the loop ----------

  /** The subtree at start in e is the context s filled with t, the one at the copy's
      root in f is d filled with u, and what is copied so far pairs up. */
  ghost predicate Copying<T>(e: Forest<T>, f: Forest<T>, start: TreeNode<T>, root: TreeNode<T>, origin: map<TreeNode<T>, TreeNode<T>>,
                             s: Context<TreeNode<T>>, t: Tree<TreeNode<T>>, d: Context<TreeNode<T>>, u: Tree<TreeNode<T>>) {
    && Distinct(e) && start in Labels(e) && Find(e, start) == Plug(s, t)
    && Distinct(f) && root in Labels(f) && Find(f, root) == Plug(d, u)
    && Paired(s, d, origin) && Labels([u]) <= origin.Keys
  }

  /** Climbs from a copied subtree without right siblings to one with right
      siblings, or to the start. */
  method Climb<T>(tree: LinkedTree<T>, other: LinkedTree<T>, start: TreeNode<T>, ghost root: TreeNode<T>,
                  ghost origin: map<TreeNode<T>, TreeNode<T>>, from: TreeNode<T>, to: TreeNode<T>,
                  ghost s: Context<TreeNode<T>>, ghost t: Tree<TreeNode<T>>,
                  ghost d: Context<TreeNode<T>>, ghost u: Tree<TreeNode<T>>)
    returns (from': TreeNode<T>, to': TreeNode<T>,
             ghost s': Context<TreeNode<T>>, ghost t': Tree<TreeNode<T>>,
             ghost d': Context<TreeNode<T>>, ghost u': Tree<TreeNode<T>>)
    requires tree.Valid() && other.Valid() && Copying(other.shape, tree.shape, start, root, origin, s, t, d, u)
    requires Relabel([u], origin) == [t] && from == t.op && to == u.op
    ensures Copying(other.shape, tree.shape, start, root, origin, s', t', d', u')
    ensures Relabel([u'], origin) == [t'] && from' == t'.op && to' == u'.op
    ensures if s'.Root? then from' == start else from' != start && s'.right != []
    ensures Pending(s') == Pending(s)
  {
    from', to', s', t', d', u' := from, to, s, t, d, u;
    SubtreeLinks(other.shape, start, s', t');
    while from'.nextSibling == null && from' != start
      invariant Copying(other.shape, tree.shape, start, root, origin, s', t', d', u')
      invariant Relabel([u'], origin) == [t'] && from' == t'.op && to' == u'.op
      invariant Pending(s') == Pending(s)
      invariant from' in other.nodes && (s'.Within? <==> from' != start)
      decreases s'
    {
      UpLinks(other.shape, tree.shape, start, root, origin, s', t', d', u');
      t', u' := Node(s'.op, s'.left + [t'] + s'.right), Node(d'.op, d'.left + [u'] + d'.right);
      from', to', s', d' := from'.parent, to'.parent, s'.up, d'.up;
      SubtreeLinks(other.shape, start, s', t');
    }
    if s'.Within? { SubtreeLinks(other.shape, start, s', t'); }
  }

  lemma {:induction false} UpLinks<T>(e: Forest<T>, f: Forest<T>, start: TreeNode<T>, root: TreeNode<T>, origin: map<TreeNode<T>, TreeNode<T>>,
                   s: Context<TreeNode<T>>, t: Tree<TreeNode<T>>, d: Context<TreeNode<T>>, u: Tree<TreeNode<T>>)
    requires Copying(e, f, start, root, origin, s, t, d, u) && Relabel([u], origin) == [t]
    requires t.op in Labels(e) && PointersOf(e, t.op).next == null && t.op != start
    ensures s.Within? && s.right == [] && d.Within?
    ensures u.op in Labels(f) && PointersOf(e, t.op).parent == s.op && PointersOf(f, u.op).parent == d.op
    ensures var t', u' := Node(s.op, s.left + [t] + s.right), Node(d.op, d.left + [u] + d.right);
      Copying(e, f, start, root, origin, s.up, t', d.up, u') && Relabel([u'], origin) == [t']
  {
    SubtreeLinks(e, start, s, t);
    SubtreeLinks(f, root, d, u);
    Raised(s, t, d, u, origin);
  }

  lemma {:induction false} Raised<N>(s: Context<N>, t: Tree<N>, d: Context<N>, u: Tree<N>, origin: map<N, N>)
    requires Paired(s, d, origin) && s.Within? && s.right == []
    requires Labels([u]) <= origin.Keys && Relabel([u], origin) == [t]
    ensures var t', u' := Node(s.op, s.left + [t] + s.right), Node(d.op, d.left + [u] + d.right);
      Labels([u']) <= origin.Keys && Relabel([u'], origin) == [t']
  {
    var u' := Node(d.op, d.left + [u] + d.right);
    RelabelChild(s, t, d, u, origin);
    assert d.left + [u] + d.right == d.left + [u];
    assert s.left + [t] + s.right == s.left + [t];
    Single(u');
    RelabelSingle(u', origin);
  }

  /** How far the copy has come: the source is s filled with t, whose root has
      just been copied to the leaf that fills d; origin says what was copied from what. */
  datatype Progress<N> = Progress(s: Context<N>, t: Tree<N>, d: Context<N>, to: N, origin: map<N, N>) {
    ghost function Copy(): Tree<N> { Plug(d, Node(to, [])) }

    ghost predicate Of(root: N, source: Tree<N>) {
      && source == Plug(s, t) && Copy().op == root && Paired(s, d, origin)
      && origin.Keys == Labels([Copy()]) && to in origin && origin[to] == t.op
    }

    /** Number of nodes still to be copied. */
    ghost function Left(): nat { SizeAll(t.kids) + Pending(s) }

    ghost function Descended(x: N): Progress<N>
      requires t.kids != []
    {
      Progress(Within(s, t.op, [], t.kids[1..]), t.kids[0], Within(d, to, [], []), x, origin[x := t.kids[0].op])
    }
  }

  lemma {:induction false} PlugGrows<N>(c: Context<N>, t: Tree<N>, u: Tree<N>, x: N)
    requires Labels([u]) == Labels([t]) + {x} && u.op == t.op
    ensures Labels([Plug(c, u)]) == Labels([Plug(c, t)]) + {x} && Plug(c, u).op == Plug(c, t).op
  {
    if c.Within? {
      var t', u' := Node(c.op, c.left + [t] + c.right), Node(c.op, c.left + [u] + c.right);
      LabelsConcat(c.left, [t]);
      LabelsConcat(c.left + [t], c.right);
      LabelsConcat(c.left, [u]);
      LabelsConcat(c.left + [u], c.right);
      Single(t');
      Single(u');
      PlugGrows(c.up, t', u', x);
    }
  }

  lemma {:induction false} LeafAdded<N>(c: Context<N>, to: N, kids: seq<Tree<N>>, x: N)
    ensures var t, u := Node(to, kids), Node(to, kids + [Node(x, [])]);
      Labels([Plug(c, u)]) == Labels([Plug(c, t)]) + {x} && Plug(c, u).op == Plug(c, t).op
      && Plug(c, u) == Plug(Within(c, to, kids, []), Node(x, []))
  {
    var leaf: Tree<N> := Node(x, []);
    var t, u := Node(to, kids), Node(to, kids + [leaf]);
    Single(leaf);
    Single(t);
    Single(u);
    LabelsConcat(kids, [leaf]);
    PlugGrows(c, t, u, x);
    assert kids + [leaf] + [] == kids + [leaf];
  }

  lemma {:induction false} DescendStep<N>(c: Progress<N>, root: N, source: Tree<N>, x: N)
    requires c.Of(root, source) && c.t.kids != [] && x !in c.origin
    ensures c.Descended(x).Of(root, source) && c.Descended(x).Left() < c.Left()
  {
    var t, e := c.t, c.Descended(x);
    assert [] + [t.kids[0]] + t.kids[1..] == t.kids;
    assert Plug(e.s, e.t) == Plug(c.s, Node(t.op, t.kids));
    LeafAdded(c.d, c.to, [], x);
    PairedMore(c.s, c.d, c.origin, x, t.kids[0].op);
    assert Relabel([], e.origin) == [];
  }

  ghost function Advanced<N>(s: Context<N>, t: Tree<N>, d: Context<N>, u: Tree<N>, origin: map<N, N>, x: N): Progress<N>
    requires s.Within? && s.right != [] && d.Within?
  {
    Progress(Within(s.up, s.op, s.left + [t], s.right[1..]), s.right[0],
             Within(d.up, d.op, d.left + [u], []), x, origin[x := s.right[0].op])
  }

  /** The subtree t has been copied to u. */
  ghost predicate Finished<N>(s: Context<N>, t: Tree<N>, d: Context<N>, u: Tree<N>, origin: map<N, N>, root: N, source: Tree<N>) {
    && source == Plug(s, t) && Paired(s, d, origin) && Plug(d, u).op == root
    && origin.Keys == Labels([Plug(d, u)]) && Labels([u]) <= origin.Keys && Relabel([u], origin) == [t]
  }

  lemma {:induction false} AdvanceStep<N>(s: Context<N>, t: Tree<N>, d: Context<N>, u: Tree<N>, origin: map<N, N>, root: N, source: Tree<N>, x: N)
    requires Finished(s, t, d, u, origin, root, source) && s.Within? && s.right != [] && x !in origin
    ensures var c := Advanced(s, t, d, u, origin, x);
      c.Of(root, source) && c.Left() < Pending(s)
    ensures Plug(d, u) == Plug(d.up, Node(d.op, d.left + [u]))
  {
    var c := Advanced(s, t, d, u, origin, x);
    var t' := s.right[0];
    assert s.left + [t] + [t'] + s.right[1..] == s.left + [t] + s.right;
    assert d.left + [u] + d.right == d.left + [u];
    LeafAdded(d.up, d.op, d.left + [u], x);
    RelabelChild(s, t, d, u, origin);
    PairedMore(s.up, d.up, origin, x, t'.op);
    RelabelMore(d.left + [u], origin, x, t'.op);
  }

  /** Where the copy stands in the forest. */
  ghost predicate Placed<T>(f: Forest<T>, head: TreeNode<T>, feet: TreeNode<T>, root: TreeNode<T>) {
    Bounded(f, head, feet) && root in Labels(f) && root != head && root != feet
  }

  /** Where both stand in one forest: start keeps its subtree and its right
      neighbour, and root holds what is copied so far. */
  ghost predicate Setting<T>(f: Forest<T>, head: TreeNode<T>, feet: TreeNode<T>, start: TreeNode<T>, root: TreeNode<T>) {
    && Placed(f, head, feet, root) && start in Labels(f)
    && root !in Gone(f, start, 1) && start !in Gone(f, root, 1)
  }

  lemma {:induction false} SettingKept<T>(f: Forest<T>, head: TreeNode<T>, feet: TreeNode<T>, start: TreeNode<T>, copy: Tree<TreeNode<T>>)
    requires Setting(f, head, feet, start, copy.op) && start !in Labels([copy])
    requires Distinct(Splice(f, copy.op, 1, [copy]))
    ensures var g := Splice(f, copy.op, 1, [copy]);
      && start in Labels(g) && Find(g, start) == Find(f, start) && copy.op in Labels(g) && Find(g, copy.op) == copy
      && PointersOf(g, start).next == PointersOf(f, start).next
  {
    var g := Splice(f, copy.op, 1, [copy]);
    SpliceAgain(f, copy, []);
    Elsewhere(f, copy.op, copy, start, null);
    RunLinks(f, null, null, null, start, 0);
    RunLinks(g, null, null, null, start, 0);
  }

  /** Appending a leaf inside the copy. */
  lemma {:induction false} GrowShape<T>(f: Forest<T>, d: Context<TreeNode<T>>, to: TreeNode<T>, kids: Forest<T>, root: TreeNode<T>, x: TreeNode<T>)
    requires Plug(d, Node(to, kids)).op == root && root in Labels(f)
    requires Distinct(Splice(f, root, 1, [Plug(d, Node(to, kids))]))
    ensures var g := Splice(f, root, 1, [Plug(d, Node(to, kids))]);
      && to in Labels(g)
      && Below(g, to, [Leaf(x)]) == Splice(f, root, 1, [Plug(Within(d, to, kids, []), Leaf(x))])
  {
    var copy, leaf := Plug(d, Node(to, kids)), Leaf(x);
    var g, grown := Splice(f, root, 1, [copy]), Node(to, kids + [leaf]);
    SpliceAgain(f, copy, []);
    FindLabels(g, root);
    PlugFind(d, Node(to, kids));
    LeafAdded(d, to, kids, x);
    SpliceAgain(f, copy, [Plug(d, grown)]);
    if d.Within? {
      PlugBelow(d, Node(to, kids));
      FindBelow(g, root, to);
      PlugSplice(d, Node(to, kids), grown);
      SpliceWithin(g, root, to, [grown]);
      var rest: Forest<T> := [copy][1..];
      assert rest == [];
    }
  }

  /** Only the root of the copy was there before. */
  ghost predicate NewButRoot<T>(nodes: set<TreeNode<T>>, were: set<TreeNode<T>>, root: TreeNode<T>,
                                origin: map<TreeNode<T>, TreeNode<T>>) {
    && nodes == were + origin.Keys && root in were
    && forall m :: m in origin && m in were ==> m == root
  }

  /** Copied nodes carry the data of their origins. */
  ghost predicate SameData<T>(origin: map<TreeNode<T>, TreeNode<T>>)
    reads origin.Keys, origin.Values
  {
    forall m :: m in origin ==> m.data == origin[m].data
  }

  /** What is copied comes from nodes of the other tree. */
  ghost predicate CopiedFrom<T>(other: LinkedTree<T>, theirs: set<TreeNode<T>>, origin: map<TreeNode<T>, TreeNode<T>>)
    reads other, origin.Keys, origin.Values
  {
    theirs <= other.nodes && origin.Values <= theirs && SameData(origin)
  }

  /** Appends a leaf to the node to inside the copy. */
  method GrowLeaf<T>(tree: LinkedTree<T>, to: TreeNode<T>, data: T, ghost f: Forest<T>, ghost were: set<TreeNode<T>>,
                     ghost root: TreeNode<T>, ghost d: Context<TreeNode<T>>, ghost kids: Forest<T>,
                     ghost origin: map<TreeNode<T>, TreeNode<T>>)
    returns (x: TreeNode<T>)
    requires tree.Valid() && root in Labels(f) && NewButRoot(tree.nodes, were, root, origin) && to in origin
    requires tree.shape == Splice(f, root, 1, [Plug(d, Node(to, kids))]) && Plug(d, Node(to, kids)).op == root
    requires tree.head in were && tree.feet in were && root != tree.head && root != tree.feet
    modifies tree, tree.nodes
    ensures tree.Valid() && fresh(x) && x.data == data && tree.nodes == old(tree.nodes) + {x}
    ensures tree.shape == Splice(f, root, 1, [Plug(Within(d, to, kids, []), Leaf(x))])
    ensures Kept(old(tree.nodes))
  {
    x := tree.AppendChild(to, data);
    GrowShape(f, d, to, kids, root, x);
  }

  /** Appending a leaf leaves another tree as it is. */
  method GrowApart<T>(tree: LinkedTree<T>, ghost other: LinkedTree<T>, to: TreeNode<T>, data: T, ghost f: Forest<T>, ghost were: set<TreeNode<T>>,
                      ghost root: TreeNode<T>, ghost d: Context<TreeNode<T>>, ghost kids: Forest<T>,
                      ghost origin: map<TreeNode<T>, TreeNode<T>>)
    returns (x: TreeNode<T>)
    requires SameOrApart(tree, other) && other.Valid()
    requires tree.Valid() && root in Labels(f) && NewButRoot(tree.nodes, were, root, origin) && to in origin
    requires tree.shape == Splice(f, root, 1, [Plug(d, Node(to, kids))]) && Plug(d, Node(to, kids)).op == root
    requires tree.head in were && tree.feet in were && root != tree.head && root != tree.feet
    modifies tree, tree.nodes
    ensures tree.Valid() && fresh(x) && x.data == data && tree.nodes == old(tree.nodes) + {x}
    ensures tree.shape == Splice(f, root, 1, [Plug(Within(d, to, kids, []), Leaf(x))])
    ensures Kept(old(tree.nodes)) && old(other.nodes) <= other.nodes && Kept(old(other.nodes))
    ensures SameOrApart(tree, other) && other.Valid() && (other != tree ==> other.shape == old(other.shape))
  {
    x := GrowLeaf(tree, to, data, f, were, root, d, kids, origin);
  }

  /** Appends a copy of the node from to the node to. */
  method Grow<T>(tree: LinkedTree<T>, ghost other: LinkedTree<T>, to: TreeNode<T>, from: TreeNode<T>,
                 ghost f: Forest<T>, ghost were: set<TreeNode<T>>, ghost theirs: set<TreeNode<T>>,
                 ghost root: TreeNode<T>, ghost d: Context<TreeNode<T>>, ghost kids: Forest<T>,
                 ghost origin: map<TreeNode<T>, TreeNode<T>>)
    returns (x: TreeNode<T>)
    requires SameOrApart(tree, other) && tree.Valid() && other.Valid() && root in Labels(f)
    requires tree.shape == Splice(f, root, 1, [Plug(d, Node(to, kids))]) && Plug(d, Node(to, kids)).op == root
    requires NewButRoot(tree.nodes, were, root, origin) && CopiedFrom(other, theirs, origin) && from in theirs && to in origin
    requires tree.head in were && tree.feet in were && root != tree.head && root != tree.feet
    modifies tree, tree.nodes
    ensures SameOrApart(tree, other) && tree.Valid() && other.Valid() && (other != tree ==> other.shape == old(other.shape))
    ensures fresh(x) && x !in old(tree.nodes)
    ensures tree.shape == Splice(f, root, 1, [Plug(Within(d, to, kids, []), Leaf(x))])
    ensures NewButRoot(tree.nodes, were, root, origin[x := from]) && CopiedFrom(other, theirs, origin[x := from])
    ensures Kept(old(tree.nodes))
  {
    x := GrowApart(tree, other, to, from.data, f, were, root, d, kids, origin);
    OriginMore(old(tree.nodes), were, theirs, root, origin, x, from);
    forall m | m in origin ensures m.data == origin[m].data {
      assert m in old(tree.nodes) && origin[m] in old(other.nodes);
    }
  }

  lemma {:induction false} OriginMore<T>(nodes: set<TreeNode<T>>, were: set<TreeNode<T>>, theirs: set<TreeNode<T>>, root: TreeNode<T>,
                      origin: map<TreeNode<T>, TreeNode<T>>, x: TreeNode<T>, from: TreeNode<T>)
    requires NewButRoot(nodes, were, root, origin) && origin.Values <= theirs && x !in nodes && from in theirs
    ensures NewButRoot(nodes + {x}, were, root, origin[x := from]) && origin[x := from].Values <= theirs
  {
    forall y | y in origin[x := from].Values ensures y in theirs {
      if y != from { assert y in origin.Values; }
    }
  }

  /** The nodes of now were there before, or have been allocated since. */
  twostate predicate Newer<T>(before: set<TreeNode<T>>, new now: set<TreeNode<T>>) {
    forall m :: m in now ==> m in before || fresh(m)
  }

  /** The tree to be copied, which hangs left of last: in the forest f that holds the
      copy as well, or in another tree. */
  ghost predicate StandsFor<T>(tree: LinkedTree<T>, other: LinkedTree<T>, f: Forest<T>, start: TreeNode<T>, root: TreeNode<T>,
                               source: Tree<TreeNode<T>>, last: TreeNode?<T>)
    reads tree, other
  {
    && SameOrApart(tree, other)
    && (other == tree ==> Setting(f, tree.head, tree.feet, start, root))
    && var e := if other == tree then f else other.shape;
       start in Labels(e) && Find(e, start) == source && PointersOf(e, start).next == last
  }

  /** The state between two rounds of the loop. */
  ghost predicate Midway<T>(tree: LinkedTree<T>, other: LinkedTree<T>, f: Forest<T>, were: set<TreeNode<T>>,
                            start: TreeNode<T>, root: TreeNode<T>, source: Tree<TreeNode<T>>, last: TreeNode?<T>,
                            c: Progress<TreeNode<T>>)
    reads tree, tree.nodes, other, other.nodes, c.origin.Keys, c.origin.Values
  {
    && tree.Valid() && other.Valid() && StandsFor(tree, other, f, start, root, source, last)
    && Placed(f, tree.head, tree.feet, root) && were == Labels(f)
    && tree.shape == Splice(f, root, 1, [c.Copy()]) && c.Of(root, source)
    && NewButRoot(tree.nodes, were, root, c.origin) && CopiedFrom(other, Labels([source]), c.origin)
  }

  /** The source as it stands now. */
  lemma {:induction false} SourceStands<T>(tree: LinkedTree<T>, other: LinkedTree<T>, f: Forest<T>, start: TreeNode<T>, root: TreeNode<T>,
                       source: Tree<TreeNode<T>>, last: TreeNode?<T>, copy: Tree<TreeNode<T>>, were: set<TreeNode<T>>, origin: map<TreeNode<T>, TreeNode<T>>)
    requires tree.Valid() && StandsFor(tree, other, f, start, root, source, last) && were == Labels(f)
    requires root in Labels(f) && tree.shape == Splice(f, root, 1, [copy]) && copy.op == root
    requires NewButRoot(tree.nodes, were, root, origin) && origin.Keys == Labels([copy])
    ensures start in Labels(other.shape) && Find(other.shape, start) == source && PointersOf(other.shape, start).next == last
  {
    if other == tree {
      GoneLabels(f, start, 1);
      FindLabels(f, start);
      assert start != root && start !in origin;
      SettingKept(f, tree.head, tree.feet, start, copy);
    }
  }

  lemma {:induction false} MidwayFacts<T>(tree: LinkedTree<T>, other: LinkedTree<T>, f: Forest<T>, were: set<TreeNode<T>>,
                       start: TreeNode<T>, root: TreeNode<T>, source: Tree<TreeNode<T>>, last: TreeNode?<T>,
                       c: Progress<TreeNode<T>>)
    requires Midway(tree, other, f, were, start, root, source, last, c)
    ensures Copying(other.shape, tree.shape, start, root, c.origin, c.s, c.t, c.d, Leaf(c.to))
    ensures Relabel([Leaf(c.to)], c.origin) == [Node(c.t.op, [])]
    ensures start in other.nodes && start.nextSibling == last
    ensures Find(other.shape, start) == source && PointersOf(other.shape, start).next == last
    ensures c.t.op in other.nodes && c.t.op.firstChild == Head(c.t.kids, null)
    ensures tree.head in were && tree.feet in were && Find(tree.shape, root) == c.Copy()
  {
    var g := tree.shape;
    BoundsOf(f, tree.head, tree.feet);
    SourceStands(tree, other, f, start, root, source, last, c.Copy(), were, c.origin);
    SpliceAgain(f, c.Copy(), []);
    FindLabels(g, root);
    PlugFind(c.d, Leaf(c.to));
    RelabelSingle(Leaf(c.to), c.origin);
    SubtreeLinks(other.shape, start, c.s, c.t);
  }

  /** Copies the first child of the node copied last. */
  method Descend<T>(tree: LinkedTree<T>, ghost other: LinkedTree<T>, from: TreeNode<T>, to: TreeNode<T>,
                    ghost f: Forest<T>, ghost were: set<TreeNode<T>>, ghost start: TreeNode<T>, ghost root: TreeNode<T>,
                    ghost source: Tree<TreeNode<T>>, ghost last: TreeNode?<T>, ghost c: Progress<TreeNode<T>>)
    returns (from': TreeNode<T>, to': TreeNode<T>, ghost c': Progress<TreeNode<T>>)
    requires Midway(tree, other, f, were, start, root, source, last, c) && from == c.t.op && to == c.to && from.firstChild != null
    modifies tree, tree.nodes
    ensures Midway(tree, other, f, were, start, root, source, last, c') && from' == c'.t.op && to' == c'.to
    ensures c'.Left() < c.Left() && Kept(were) && Newer(old(tree.nodes), tree.nodes) && from' != last
  {
    MidwayFacts(tree, other, f, were, start, root, source, last, c);
    ChildOfCopied(other.shape, start, c);
    from' := from.firstChild;
    to' := Grow(tree, other, to, from', f, were, Labels([source]), root, c.d, [], c.origin);
    c' := c.Descended(to');
    DescendStep(c, root, source, to');
  }

  lemma {:induction false} ChildOfCopied<T>(f: Forest<T>, start: TreeNode<T>, c: Progress<TreeNode<T>>)
    requires Distinct(f) && start in Labels(f) && Find(f, start) == Plug(c.s, c.t) && c.t.kids != []
    ensures c.t.kids[0].op in Labels([Find(f, start)]) && c.t.kids[0].op != PointersOf(f, start).next
  {
    var k := c.t.kids[0];
    assert [] + [k] + c.t.kids[1..] == c.t.kids;
    assert Plug(Within(c.s, c.t.op, [], c.t.kids[1..]), k) == Plug(c.s, c.t);
    OpenIsInside(f, start, Within(c.s, c.t.op, [], c.t.kids[1..]), k);
  }

  /** The open place lies inside the subtree, its right neighbour does not. */
  lemma {:induction false} OpenIsInside<T>(f: Forest<T>, start: TreeNode<T>, s: Context<TreeNode<T>>, t: Tree<TreeNode<T>>)
    requires Distinct(f) && start in Labels(f) && Find(f, start) == Plug(s, t) && s.Within?
    ensures t.op in Labels([Find(f, start)]) && t.op in Labels(f) && t.op != PointersOf(f, start).next
  {
    assert Distinct([Plug(s, t)]) by { FindLabels(f, start); }
    PlugBelow(s, t);
    Single(Plug(s, t));
    RightOutside(f, start, t.op);
  }

  lemma {:induction false} RightOutside<T>(f: Forest<T>, n: TreeNode<T>, m: TreeNode<T>)
    requires Distinct(f) && n in Labels(f) && m in Labels(Find(f, n).kids)
    ensures m in Labels(f) && m != PointersOf(f, n).next
  {
    FindLabels(f, n);
    GoneLabels(f, n, 1);
    NeighboursOutside(f, null, null, null, n, 1);
    RunLinks(f, null, null, null, n, 0);
  }

  /** Copies the next node to the right of what is copied, unless that is everything. */
  method Advance<T>(tree: LinkedTree<T>, other: LinkedTree<T>, start: TreeNode<T>, last: TreeNode?<T>, from: TreeNode<T>, to: TreeNode<T>,
                    ghost f: Forest<T>, ghost were: set<TreeNode<T>>, ghost root: TreeNode<T>,
                    ghost source: Tree<TreeNode<T>>, ghost c: Progress<TreeNode<T>>)
    returns (from': TreeNode?<T>, to': TreeNode<T>, ghost c': Progress<TreeNode<T>>)
    requires Midway(tree, other, f, were, start, root, source, last, c) && from == c.t.op && to == c.to && c.t.kids == []
    modifies tree, tree.nodes
    ensures from' != last ==>
              Midway(tree, other, f, were, start, root, source, last, c') && from' == c'.t.op && to' == c'.to && c'.Left() < c.Left()
    ensures from' == last ==> Done(tree, other, f, were, root, source, c)
    ensures Kept(were) && Newer(old(tree.nodes), tree.nodes)
  {
    MidwayFacts(tree, other, f, were, start, root, source, last, c);
    ghost var s, t, d, u;
    from', to', s, t, d, u := Climb(tree, other, start, root, c.origin, from, to, c.s, c.t, c.d, Leaf(to));
    ClimbedFacts(other.shape, tree.shape, f, tree.nodes, were, start, root, source, c, s, t, d, u);
    c' := c;
    from' := from'.nextSibling;
    if from' != last {
      to' := Grow(tree, other, to'.parent, from', f, were, Labels([source]), root, d.up, d.left + [u], c.origin);
      AdvanceStep(s, t, d, u, c.origin, root, source, to');
      c' := Advanced(s, t, d, u, c.origin, to');
    }
  }

  /** Everything is copied. */
  ghost predicate Done<T>(tree: LinkedTree<T>, other: LinkedTree<T>, f: Forest<T>, were: set<TreeNode<T>>,
                          root: TreeNode<T>, source: Tree<TreeNode<T>>, c: Progress<TreeNode<T>>)
    reads tree, tree.nodes, other, other.nodes, c.origin.Keys, c.origin.Values
  {
    && tree.Valid() && other.Valid() && SameOrApart(tree, other)
    && Copied(tree.shape, tree.nodes, f, were, root, source, c.Copy(), c.origin)
    && CopiedFrom(other, Labels([source]), c.origin)
  }

  /** What holds after the climb: everything is copied, or there is a right sibling. */
  lemma {:induction false} ClimbedFacts<T>(e: Forest<T>, g: Forest<T>, f: Forest<T>, nodes: set<TreeNode<T>>, were: set<TreeNode<T>>,
                        start: TreeNode<T>, root: TreeNode<T>, source: Tree<TreeNode<T>>, c: Progress<TreeNode<T>>,
                        s: Context<TreeNode<T>>, t: Tree<TreeNode<T>>, d: Context<TreeNode<T>>, u: Tree<TreeNode<T>>)
    requires root in Labels(f) && c.Of(root, source)
    requires g == Splice(f, root, 1, [c.Copy()]) && NewButRoot(nodes, were, root, c.origin)
    requires Copying(e, g, start, root, c.origin, s, t, d, u) && Relabel([u], c.origin) == [t]
    requires Find(e, start) == source && Find(g, root) == c.Copy()
    ensures Finished(s, t, d, u, c.origin, root, source)
    ensures s.Root? ==> Copied(g, nodes, f, were, root, source, c.Copy(), c.origin)
    ensures s.Within? && s.right != [] ==> s.right[0].op in Labels([source]) && s.right[0].op != PointersOf(e, start).next
    ensures t.op in Labels(e) && u.op in Labels(g)
    ensures s.Within? ==> PointersOf(e, t.op).next == Head(s.right, null) && PointersOf(g, u.op).parent == d.op
    ensures s.Within? ==> d.Within? && d.op in c.origin && c.Copy() == Plug(d.up, Node(d.op, d.left + [u]))
  {
    if s.Within? { assert d.left + [u] + d.right == d.left + [u]; }
    SubtreeLinks(e, start, s, t);
    SubtreeLinks(g, root, d, u);
    if s.Within? && s.right != [] {
      var k := s.right[0];
      assert s.left + [t] + [k] + s.right[1..] == s.left + [t] + s.right;
      OpenIsInside(e, start, Within(s.up, s.op, s.left + [t], s.right[1..]), k);
    }
  }

  ghost predicate Copied<T>(g: Forest<T>, nodes: set<TreeNode<T>>, f: Forest<T>, were: set<TreeNode<T>>,
                            root: TreeNode<T>, source: Tree<TreeNode<T>>, copy: Tree<TreeNode<T>>, origin: map<TreeNode<T>, TreeNode<T>>) {
    && root in Labels(f) && g == Splice(f, root, 1, [copy]) && copy.op == root
    && NewButRoot(nodes, were, root, origin) && origin.Keys == Labels([copy])
    && Relabel([copy], origin) == [source]
  }

  /** One round of the loop: down to a child, or up and on to the right. */
  method Round<T>(tree: LinkedTree<T>, other: LinkedTree<T>, start: TreeNode<T>, last: TreeNode?<T>, from: TreeNode<T>, to: TreeNode<T>,
                  ghost f: Forest<T>, ghost were: set<TreeNode<T>>, ghost root: TreeNode<T>,
                  ghost source: Tree<TreeNode<T>>, ghost c: Progress<TreeNode<T>>)
    returns (from': TreeNode?<T>, to': TreeNode<T>, ghost c': Progress<TreeNode<T>>)
    requires Midway(tree, other, f, were, start, root, source, last, c) && from == c.t.op && to == c.to
    modifies tree, tree.nodes
    ensures from' != last ==>
              Midway(tree, other, f, were, start, root, source, last, c') && from' == c'.t.op && to' == c'.to && c'.Left() < c.Left()
    ensures from' == last ==> Done(tree, other, f, were, root, source, c)
    ensures Kept(were) && Newer(old(tree.nodes), tree.nodes)
  {
    assert from.firstChild == Head(c.t.kids, null) && from in other.nodes by {
      MidwayFacts(tree, other, f, were, start, root, source, last, c);
    }
    if from.firstChild != null {
      from', to', c' := Descend(tree, other, from, to, f, were, start, root, source, last, c);
    } else {
      from', to', c' := Advance(tree, other, start, last, from, to, f, were, root, source, c);
    }
  }

  /** Copies everything below start, in this tree or another one, under root, which
      already carries the data of start. */
  method CopyBelow<T>(tree: LinkedTree<T>, other: LinkedTree<T>, start: TreeNode<T>, root: TreeNode<T>)
    returns (ghost copy: Tree<TreeNode<T>>, ghost origin: map<TreeNode<T>, TreeNode<T>>)
    requires tree.Valid() && other.Valid() && SameOrApart(tree, other) && start in other.nodes
    requires Placed(tree.shape, tree.head, tree.feet, root)
    requires other == tree ==> Setting(tree.shape, tree.head, tree.feet, start, root)
    requires Find(tree.shape, root) == Leaf(root) && root.data == start.data
    modifies tree, tree.nodes
    ensures tree.Valid() && Copied(tree.shape, tree.nodes, old(tree.shape), old(tree.nodes), root, old(Find(other.shape, start)), copy, origin)
    ensures SameOrApart(tree, other) && other.Valid() && SameData(origin) && Kept(old(tree.nodes)) && Newer(old(tree.nodes), tree.nodes)
  {
    ghost var f, were, source := tree.shape, tree.nodes, Find(other.shape, start);
    ghost var c := Start(source, root);
    StartFacts(tree, other, start, root, c);
    var last := start.nextSibling;
    var from: TreeNode?<T>, to := start, root;
    while true
      invariant from != null && Midway(tree, other, f, were, start, root, source, last, c) && from == c.t.op && to == c.to
      invariant Kept(were) && Newer(were, tree.nodes)
      decreases c.Left()
    {
      copy, origin := c.Copy(), c.origin;
      from, to, c := Round(tree, other, start, last, from, to, f, were, root, source, c);
      if from == last { break; }
    }
  }

  /** Before the first round only the head is copied. */
  ghost function Start<N>(source: Tree<N>, root: N): Progress<N> {
    Progress(Root, source, Root, root, map[root := source.op])
  }

  lemma {:induction false} StartFacts<T>(tree: LinkedTree<T>, other: LinkedTree<T>, start: TreeNode<T>, root: TreeNode<T>, c: Progress<TreeNode<T>>)
    requires tree.Valid() && other.Valid() && SameOrApart(tree, other) && start in other.nodes
    requires Placed(tree.shape, tree.head, tree.feet, root)
    requires other == tree ==> Setting(tree.shape, tree.head, tree.feet, start, root)
    requires Find(tree.shape, root) == Leaf(root) && root.data == start.data
    requires c == Start(Find(other.shape, start), root)
    ensures Midway(tree, other, tree.shape, tree.nodes, start, root, Find(other.shape, start), start.nextSibling, c)
  {
    var f := tree.shape;
    SpliceIdentity(f, root, 1);
    assert Run(f, root)[..1] == [Leaf(root)];
    Single(Leaf(root));
    FindLabels(other.shape, start);
    Single(Find(other.shape, start));
  }

  /** Replaces position, with everything below it, by the new leaf tmp. */
  method ReplaceHead<T>(tree: LinkedTree<T>, position: TreeNode<T>, tmp: TreeNode<T>)
    requires tree.Valid() && position in tree.nodes && position != tree.head && position != tree.feet
    requires tmp !in tree.nodes && tmp.alive && tmp.firstChild == null && tmp.lastChild == null
    modifies tree, tree.nodes, tmp
    ensures tree.Valid() && tree.shape == Splice(old(tree.shape), position, 1, [Leaf(tmp)])
    ensures tree.nodes == old(tree.nodes - Gone(tree.shape, position, 1)) + {tmp} && Kept(tree.nodes)
    ensures forall m :: m in old(tree.nodes) && m !in tree.nodes ==> !m.alive
  {
    ChildlessAgain(tree.shape, tree.head, tree.feet, position, [Leaf(tmp)]);
    tree.EraseChildren(position);
    Substitute(tree, position, tmp);
  }

  /** Gives the place of the childless node position to tmp, and frees position. */
  method Substitute<T>(tree: LinkedTree<T>, position: TreeNode<T>, tmp: TreeNode<T>)
    requires tree.Valid() && Inner(tree.shape, tree.head, tree.feet, position, 1) && Gone(tree.shape, position, 1) == {position}
    requires tmp !in tree.nodes && tmp.alive && tmp.firstChild == null && tmp.lastChild == null
    modifies tree, tree.nodes, tmp
    ensures tree.Valid() && tree.shape == Splice(old(tree.shape), position, 1, [Leaf(tmp)])
    ensures tree.nodes == old(tree.nodes) - {position} + {tmp} && Kept(tree.nodes) && !position.alive
  {
    TakeOver(tree, position, tmp);
    Deallocate(position);
  }

  /** Puts tmp between the neighbours of position, which leaves the tree. */
  method TakeOver<T>(tree: LinkedTree<T>, position: TreeNode<T>, tmp: TreeNode<T>)
    requires tree.Valid() && Inner(tree.shape, tree.head, tree.feet, position, 1) && Gone(tree.shape, position, 1) == {position}
    requires tmp !in tree.nodes && tmp.alive && tmp.firstChild == null && tmp.lastChild == null
    modifies tree, tree.nodes, tmp
    ensures tree.Valid() && tree.shape == Splice(old(tree.shape), position, 1, [Leaf(tmp)])
    ensures tree.nodes == old(tree.nodes) - {position} + {tmp} && Kept(old(tree.nodes) + {tmp})
  {
    StandIn(position, tmp);
    OneForAnother(tree.shape, tree.head, tree.feet, position, tmp);
    tree.Place(Splice(tree.shape, position, 1, [Leaf(tmp)]), [Leaf(tmp)], {tmp},
               tmp.parent, tmp.prevSibling, tmp.nextSibling, tmp, tmp);
  }

  /** Gives tmp the neighbours of position. */
  method StandIn<T>(position: TreeNode<T>, tmp: TreeNode<T>)
    requires tmp.alive && tmp.firstChild == null && tmp.lastChild == null && tmp != position
    modifies tmp`parent, tmp`prevSibling, tmp`nextSibling
    ensures tmp.parent == position.parent && tmp.prevSibling == position.prevSibling && tmp.nextSibling == position.nextSibling
    ensures Hangs([Leaf(tmp)], tmp.parent, tmp.prevSibling, tmp.nextSibling)
  {
    tmp.prevSibling := position.prevSibling;
    tmp.nextSibling := position.nextSibling;
    tmp.parent := position.parent;
    LeafLinks(tmp, tmp.parent, tmp.prevSibling, tmp.nextSibling);
  }

  lemma {:induction false} OneForAnother<T>(f: Forest<T>, head: TreeNode<T>, feet: TreeNode<T>, position: TreeNode<T>, tmp: TreeNode<T>)
    requires Inner(f, head, feet, position, 1) && Gone(f, position, 1) == {position} && tmp !in Labels(f)
    ensures var g, l := Splice(f, position, 1, [Leaf(tmp)]), PointersOf(f, position);
      && Edits(f, g, [Leaf(tmp)], l.parent, l.prev, l.next) && Bounded(g, head, feet)
      && Labels(g) == Labels(f) - {position} + {tmp} && Neighbours(Labels(f) - {position}, l.parent, l.prev, l.next)
    ensures Labels([Leaf(tmp)]) == {tmp}
  {
    Single(Leaf(tmp));
    RunLinks(f, null, null, null, position, 0);
    InnerEdits(f, head, feet, position, 1, [Leaf(tmp)]);
  }

  /** A splice at a node that an earlier splice brought in. */
  lemma {:induction false} SpliceThrough<N>(f: seq<Tree<N>>, n: N, t: Tree<N>, mid: seq<Tree<N>>)
    requires n in Labels(f) && t.op !in Labels(f)
    ensures var g := Splice(f, n, 1, [t]);
      && t.op in Labels(g) && Find(g, t.op) == t
      && Splice(g, t.op, 1, mid) == Splice(f, n, 1, mid)
  {
    var g := Splice(f, n, 1, [t]);
    if f[0].op == n {
      assert g == [t] + f[1..] && g[1..] == f[1..];
    } else if n in Labels(f[0].kids) {
      SpliceThrough(f[0].kids, n, t, mid);
      assert g == [Node(f[0].op, Splice(f[0].kids, n, 1, [t]))] + f[1..];
      assert g[1..] == f[1..];
    } else {
      SpliceThrough(f[1..], n, t, mid);
      assert g == [f[0]] + Splice(f[1..], n, 1, [t]);
      assert g[1..] == Splice(f[1..], n, 1, [t]);
    }
  }

  /** With the head replaced, the copying loop can start. */
  lemma {:induction false} SettingAfterHead<T>(f: Forest<T>, head: TreeNode<T>, feet: TreeNode<T>, from: TreeNode<T>, position: TreeNode<T>,
                            tmp: TreeNode<T>)
    requires Setting(f, head, feet, from, position) && tmp !in Labels(f)
    requires Bounded(Splice(f, position, 1, [Leaf(tmp)]), head, feet)
    ensures var g := Splice(f, position, 1, [Leaf(tmp)]);
      && Setting(g, head, feet, from, tmp) && Find(g, from) == Find(f, from) && Find(g, tmp) == Leaf(tmp)
  {
    var g := Splice(f, position, 1, [Leaf(tmp)]);
    BoundsOf(f, head, feet);
    Single(Leaf(tmp));
    SpliceThrough(f, position, Leaf(tmp), []);
    Elsewhere(f, position, Leaf(tmp), from, null);
    GoneLabels(f, from, 1);
    FindLabels(f, from);
    FindLabels(g, from);
    FindLabels(g, tmp);
  }

  /** Puts a deep copy of the subtree at from, in this tree or another one, in the
      place of position. The map origin says which node of the copy was copied from
      which. */
  method Replace<T>(tree: LinkedTree<T>, other: LinkedTree<T>, position: TreeNode<T>, from: TreeNode<T>)
    returns (tmp: TreeNode<T>, ghost copy: Tree<TreeNode<T>>, ghost origin: map<TreeNode<T>, TreeNode<T>>)
    requires tree.Valid() && other.Valid() && SameOrApart(tree, other)
    requires position in tree.nodes && from in other.nodes
    requires position == from || Placed(tree.shape, tree.head, tree.feet, position)
    requires position != from && other == tree ==> Setting(tree.shape, tree.head, tree.feet, from, position)
    modifies tree, tree.nodes
    ensures tree.Valid() && copy.op == tmp
    ensures Replaced(tree.shape, old(tree.shape), position, old(Find(other.shape, from)), copy, origin) && SameData(origin)
    ensures tree.nodes == old(tree.nodes - Gone(tree.shape, position, 1)) + origin.Keys
    ensures if position == from then tmp == position else forall m :: m in origin ==> fresh(m)
    ensures Kept(old(tree.nodes - Gone(tree.shape, position, 1)))
    ensures forall m :: m in old(tree.nodes) && m !in tree.nodes ==> !m.alive
  {
    if position == from {
      tmp, copy, origin := position, Find(tree.shape, position), Itself(Gone(tree.shape, position, 1));
      ReplacedByItself(tree.shape, position);
      return;
    }
    tmp := new TreeNode(from.data);
    copy, origin := ReplaceWith(tree, other, position, from, tmp);
  }

  ghost function Itself<N>(ns: set<N>): map<N, N> { map n | n in ns :: n }

  lemma {:induction false} RelabelItself<N>(f: seq<Tree<N>>, ns: set<N>)
    requires Labels(f) <= ns
    ensures Relabel(f, Itself(ns)) == f
  {
    if f != [] {
      RelabelItself(f[0].kids, ns);
      RelabelItself(f[1..], ns);
    }
  }

  lemma {:induction false} ReplacedByItself<T>(f: Forest<T>, n: TreeNode<T>)
    requires Distinct(f) && n in Labels(f)
    ensures Replaced(f, f, n, Find(f, n), Find(f, n), Itself(Gone(f, n, 1)))
    ensures Gone(f, n, 1) <= Labels(f)
  {
    GoneLabels(f, n, 1);
    FindLabels(f, n);
    assert Run(f, n)[..1] == [Find(f, n)];
    SpliceIdentity(f, n, 1);
    RelabelItself([Find(f, n)], Gone(f, n, 1));
  }

  /** The trees of data that a forest of nodes holds. */
  ghost function Values<T>(f: Forest<T>): seq<Tree<T>>
    reads Labels(f)
  {
    if f == [] then [] else [Node(f[0].op.data, Values(f[0].kids))] + Values(f[1..])
  }

  /** A copy holds the same tree of data as its original. */
  lemma {:induction false} CopyHoldsSameValues<T>(f: Forest<T>, origin: map<TreeNode<T>, TreeNode<T>>)
    requires Labels(f) <= origin.Keys && SameData(origin)
    ensures Values(Relabel(f, origin)) == Values(f)
  {
    if f != [] {
      CopyHoldsSameValues(f[0].kids, origin);
      CopyHoldsSameValues(f[1..], origin);
    }
  }

  /** The forest g is f with copy in the place of position, and copy is the tree
      source under other names. */
  ghost predicate Replaced<T>(g: Forest<T>, f: Forest<T>, position: TreeNode<T>, source: Tree<TreeNode<T>>,
                              copy: Tree<TreeNode<T>>, origin: map<TreeNode<T>, TreeNode<T>>)
    requires position in Labels(f)
  {
    && g == Splice(f, position, 1, [copy])
    && origin.Keys == Labels([copy]) && Relabel([copy], origin) == [source]
  }

  method ReplaceWith<T>(tree: LinkedTree<T>, other: LinkedTree<T>, position: TreeNode<T>, from: TreeNode<T>, tmp: TreeNode<T>)
    returns (ghost copy: Tree<TreeNode<T>>, ghost origin: map<TreeNode<T>, TreeNode<T>>)
    requires tree.Valid() && other.Valid() && SameOrApart(tree, other)
    requires position != from && from in other.nodes && Placed(tree.shape, tree.head, tree.feet, position)
    requires other == tree ==> Setting(tree.shape, tree.head, tree.feet, from, position)
    requires tmp !in tree.nodes && tmp !in other.nodes
    requires tmp.alive && tmp.firstChild == null && tmp.lastChild == null && tmp.data == from.data
    modifies tree, tree.nodes, tmp
    ensures tree.Valid() && copy.op == tmp
    ensures Replaced(tree.shape, old(tree.shape), position, old(Find(other.shape, from)), copy, origin) && SameData(origin)
    ensures tree.nodes == old(tree.nodes - Gone(tree.shape, position, 1)) + origin.Keys
    ensures forall m :: m in origin ==> m == tmp || fresh(m)
    ensures Kept(old(tree.nodes - Gone(tree.shape, position, 1)))
    ensures forall m :: m in old(tree.nodes) && m !in tree.nodes ==> !m.alive
  {
    ghost var f, stay, source := tree.shape, tree.nodes - Gone(tree.shape, position, 1), Find(other.shape, from);
    PutHead(tree, other, position, from, tmp);
    copy, origin := CopyBelow(tree, other, from, tmp);
    CopiedReplaced(tree.shape, tree.nodes, f, stay, source, position, tmp, copy, origin);
  }

  /** Replaces the head, and leaves the source as it is. */
  method PutHead<T>(tree: LinkedTree<T>, ghost other: LinkedTree<T>, position: TreeNode<T>, ghost from: TreeNode<T>, tmp: TreeNode<T>)
    requires tree.Valid() && other.Valid() && SameOrApart(tree, other)
    requires position != from && from in other.nodes && Placed(tree.shape, tree.head, tree.feet, position)
    requires other == tree ==> Setting(tree.shape, tree.head, tree.feet, from, position)
    requires tmp !in tree.nodes && tmp !in other.nodes
    requires tmp.alive && tmp.firstChild == null && tmp.lastChild == null && tmp.data == from.data
    modifies tree, tree.nodes, tmp
    ensures tree.Valid() && other.Valid() && SameOrApart(tree, other)
    ensures tree.shape == Splice(old(tree.shape), position, 1, [Leaf(tmp)])
    ensures tree.nodes == old(tree.nodes - Gone(tree.shape, position, 1)) + {tmp} && Kept(tree.nodes)
    ensures forall m :: m in old(tree.nodes) && m !in tree.nodes ==> !m.alive
    ensures Placed(tree.shape, tree.head, tree.feet, tmp) && Find(tree.shape, tmp) == Leaf(tmp) && tmp.data == from.data
    ensures other == tree ==> Setting(tree.shape, tree.head, tree.feet, from, tmp)
    ensures from in other.nodes && Find(other.shape, from) == old(Find(other.shape, from))
  {
    ghost var f := tree.shape;
    ReplaceHead(tree, position, tmp);
    BoundsOf(f, tree.head, tree.feet);
    SpliceThrough(f, position, Leaf(tmp), []);
    if other == tree { SettingAfterHead(f, tree.head, tree.feet, from, position, tmp); }
  }

  lemma {:induction false} CopiedReplaced<T>(g: Forest<T>, nodes: set<TreeNode<T>>, f: Forest<T>, stay: set<TreeNode<T>>,
                          source: Tree<TreeNode<T>>, position: TreeNode<T>, tmp: TreeNode<T>,
                          copy: Tree<TreeNode<T>>, origin: map<TreeNode<T>, TreeNode<T>>)
    requires position in Labels(f) && tmp !in Labels(f)
    requires Copied(g, nodes, Splice(f, position, 1, [Leaf(tmp)]), stay + {tmp}, tmp, source, copy, origin)
    ensures Replaced(g, f, position, source, copy, origin) && copy.op == tmp
    ensures nodes == stay + origin.Keys
    ensures forall m :: m in origin && m in stay ==> m == tmp
  {
    SpliceThrough(f, position, Leaf(tmp), [copy]);
    Single(copy);
  }
}
