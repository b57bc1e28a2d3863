/** The pointers that a forest of nodes prescribes, and how an edit of the
    forest changes them. A forest is an ordered list of trees whose labels are
    the nodes themselves. */
module TreeLinks {
  import opened Trees

  class TreeNode<T> {
    var data: T
    var parent: TreeNode?<T>
    var prevSibling: TreeNode?<T>
    var nextSibling: TreeNode?<T>
    var firstChild: TreeNode?<T>
    var lastChild: TreeNode?<T>
    /** Whether the storage of this node has not been handed back. */
    ghost var alive: bool

    constructor (x: T)
      ensures data == x && alive
      ensures Links() == Link(null, null, null, null, null)
    {
      data, alive := x, true;
      parent, prevSibling, nextSibling, firstChild, lastChild := null, null, null, null, null;
    }

    ghost function Links(): Link<T>
      reads this
    {
      Link(parent, prevSibling, nextSibling, firstChild, lastChild)
    }
  }

  datatype Link<T> = Link(
    parent: TreeNode?<T>, prev: TreeNode?<T>, next: TreeNode?<T>,
    first: TreeNode?<T>, last: TreeNode?<T>)

  function Leaf<T>(n: T): Tree<T> { Node(n, []) }

  ghost function Labels<N>(f: seq<Tree<N>>): set<N> {
    if f == [] then {} else {f[0].op} + Labels(f[0].kids) + Labels(f[1..])
  }

  /** No node occurs twice. */
  ghost predicate Distinct<N>(f: seq<Tree<N>>) {
    f != [] ==>
      && f[0].op !in Labels(f[0].kids) && f[0].op !in Labels(f[1..])
      && Labels(f[0].kids) !! Labels(f[1..])
      && Distinct(f[0].kids) && Distinct(f[1..])
  }

  ghost function Head<T>(f: seq<Tree<TreeNode<T>>>, d: TreeNode?<T>): TreeNode?<T> {
    if f == [] then d else f[0].op
  }

  ghost function Tail<T>(f: seq<Tree<TreeNode<T>>>, d: TreeNode?<T>): TreeNode?<T> {
    if f == [] then d else f[|f| - 1].op
  }

  /** The links of node m in the sibling list f, which hangs below p between
      the siblings a and b. */
  ghost function LinkOf<T>(f: seq<Tree<TreeNode<T>>>, p: TreeNode?<T>, a: TreeNode?<T>, b: TreeNode?<T>,
                           m: TreeNode<T>): Link<T>
    requires m in Labels(f)
  {
    var t := f[0];
    if m == t.op then Link(p, a, Head(f[1..], b), Head(t.kids, null), Tail(t.kids, null))
    else if m in Labels(t.kids) then LinkOf(t.kids, t.op, null, null, m)
    else LinkOf(f[1..], p, t.op, b, m)
  }

  /** The siblings from n rightwards. */
  ghost function Run<N>(f: seq<Tree<N>>, n: N): (r: seq<Tree<N>>)
    requires n in Labels(f)
    ensures r != [] && r[0].op == n
  {
    if f[0].op == n then f
    else if n in Labels(f[0].kids) then Run(f[0].kids, n)
    else Run(f[1..], n)
  }

  /** The subtree at n. */
  ghost function Find<N>(f: seq<Tree<N>>, n: N): (t: Tree<N>)
    requires n in Labels(f)
    ensures t.op == n
  {
    Run(f, n)[0]
  }

  /** The forest with the k siblings starting at n replaced by mid. */
  ghost function Splice<N>(f: seq<Tree<N>>, n: N, k: nat, mid: seq<Tree<N>>): seq<Tree<N>>
    requires n in Labels(f) && k <= |Run(f, n)|
  {
    if f[0].op == n then mid + f[k..]
    else if n in Labels(f[0].kids) then [Node(f[0].op, Splice(f[0].kids, n, k, mid))] + f[1..]
    else [f[0]] + Splice(f[1..], n, k, mid)
  }

  /** The sibling to the right of the k siblings starting at n. */
  ghost function Right<T>(f: seq<Tree<TreeNode<T>>>, n: TreeNode<T>, k: nat, b: TreeNode?<T>): TreeNode?<T>
    requires n in Labels(f) && k <= |Run(f, n)|
  {
    if f[0].op == n then Head(f[k..], b)
    else if n in Labels(f[0].kids) then Right(f[0].kids, n, k, null)
    else Right(f[1..], n, k, b)
  }

  /** The change of a link when whatever stood between a and b below p is
      replaced by siblings running from h to t. */
  ghost function Adjust<T>(l: Link<T>, m: TreeNode<T>, p: TreeNode?<T>, a: TreeNode?<T>, b: TreeNode?<T>,
                           h: TreeNode?<T>, t: TreeNode?<T>): Link<T> {
    Link(l.parent,
         if m == b then t else l.prev,
         if m == a then h else l.next,
         if m == p && a == null then h else l.first,
         if m == p && b == null then t else l.last)
  }

  lemma {:induction false} Single<N>(t: Tree<N>)
    ensures Labels([t]) == {t.op} + Labels(t.kids)
    ensures Distinct([t]) <==> t.op !in Labels(t.kids) && Distinct(t.kids)
  {
    assert [t][1..] == [];
  }

  lemma {:induction false} LabelsConcat<N>(f: seq<Tree<N>>, g: seq<Tree<N>>)
    ensures Labels(f + g) == Labels(f) + Labels(g)
    ensures Distinct(f + g) <==> Distinct(f) && Distinct(g) && Labels(f) !! Labels(g)
  {
    if f == [] {
      assert f + g == g;
    } else {
      LabelsConcat(f[1..], g);
      assert (f + g)[1..] == f[1..] + g;
    }
  }

  lemma {:induction false} LinkConcat<T>(f: seq<Tree<TreeNode<T>>>, g: seq<Tree<TreeNode<T>>>,
                                         p: TreeNode?<T>, a: TreeNode?<T>, b: TreeNode?<T>, m: TreeNode<T>)
    requires Distinct(f + g) && m in Labels(f + g)
    ensures m in Labels(f) ==> LinkOf(f + g, p, a, b, m) == LinkOf(f, p, a, Head(g, b), m)
    ensures m !in Labels(f) ==> m in Labels(g) && LinkOf(f + g, p, a, b, m) == LinkOf(g, p, Tail(f, a), b, m)
  {
    LabelsConcat(f, g);
    if f == [] {
      assert f + g == g;
    } else {
      LabelsConcat(f[1..], g);
      assert (f + g)[1..] == f[1..] + g;
      if m != f[0].op && m !in Labels(f[0].kids) { LinkConcat(f[1..], g, p, f[0].op, b, m); }
    }
  }

  ghost predicate Top<N>(f: seq<Tree<N>>, m: N) {
    exists i | 0 <= i < |f| :: f[i].op == m
  }

  lemma {:induction false} TopIsLabel<N>(f: seq<Tree<N>>, i: nat)
    requires i < |f|
    ensures f[i].op in Labels(f) && Labels(f[i].kids) <= Labels(f)
  {
    if i > 0 { TopIsLabel(f[1..], i - 1); }
  }

  /** The roots of a list are pairwise different nodes of it. */
  lemma {:induction false} TopLabels<N>(f: seq<Tree<N>>)
    requires Distinct(f)
    ensures forall i | 0 <= i < |f| :: f[i].op in Labels(f)
    ensures forall i, j | 0 <= i < j < |f| :: f[i].op != f[j].op
  {
    if f != [] {
      TopLabels(f[1..]);
      forall i | 0 <= i < |f| ensures f[i].op in Labels(f) && (i > 0 ==> f[i].op != f[0].op) {
        if i > 0 { assert f[1..][i - 1] == f[i]; }
      }
      forall i, j | 0 <= i < j < |f| ensures f[i].op != f[j].op {
        if i > 0 { assert f[1..][i - 1] == f[i] && f[1..][j - 1] == f[j]; }
      }
    }
  }

  /** The links below the roots do not depend on where the list hangs. */
  lemma {:induction false} Reframe<T>(f: seq<Tree<TreeNode<T>>>, p: TreeNode?<T>, a: TreeNode?<T>, b: TreeNode?<T>,
                                      q: TreeNode?<T>, c: TreeNode?<T>, d: TreeNode?<T>, m: TreeNode<T>)
    requires Distinct(f) && m in Labels(f)
    ensures var l := LinkOf(f, p, a, b, m);
      LinkOf(f, q, c, d, m) == l.(parent := if Top(f, m) then q else l.parent,
                                  prev := if m == f[0].op then c else l.prev,
                                  next := if m == f[|f| - 1].op then d else l.next)
  {
    var t := f[0];
    TopIsLabel(f, |f| - 1);
    if m == t.op {
      if |f| > 1 { TopIsLabel(f[1..], |f| - 2); }
      assert Top(f, m);
    } else if m in Labels(t.kids) {
      forall i | 0 <= i < |f| ensures f[i].op != m {
        if i > 0 { TopIsLabel(f[1..], i - 1); }
      }
    } else {
      Reframe(f[1..], p, t.op, b, q, t.op, d, m);
      assert Top(f, m) <==> Top(f[1..], m) by {
        if Top(f, m) { var i :| 0 <= i < |f| && f[i].op == m; assert f[1..][i - 1].op == m; }
        if Top(f[1..], m) { var i :| 0 <= i < |f[1..]| && f[1..][i].op == m; assert f[i + 1].op == m; }
      }
    }
  }

  lemma {:induction false} RunLabels<N>(f: seq<Tree<N>>, n: N)
    requires n in Labels(f)
    ensures Labels(Run(f, n)) <= Labels(f)
    ensures Distinct(f) ==> Distinct(Run(f, n))
  {
    if f[0].op == n {
    } else if n in Labels(f[0].kids) {
      RunLabels(f[0].kids, n);
    } else {
      RunLabels(f[1..], n);
    }
  }

  /** The nodes of the k siblings starting at n. */
  ghost function Gone<N>(f: seq<Tree<N>>, n: N, k: nat): set<N>
    requires n in Labels(f) && k <= |Run(f, n)|
  {
    Labels(Run(f, n)[..k])
  }

  lemma {:induction false} SplitLabels<N>(f: seq<Tree<N>>, k: nat)
    requires k <= |f|
    ensures Labels(f) == Labels(f[..k]) + Labels(f[k..])
    ensures Distinct(f) <==> Distinct(f[..k]) && Distinct(f[k..]) && Labels(f[..k]) !! Labels(f[k..])
  {
    assert f == f[..k] + f[k..];
    LabelsConcat(f[..k], f[k..]);
  }

  lemma {:induction false} GoneLabels<N>(f: seq<Tree<N>>, n: N, k: nat)
    requires n in Labels(f) && k <= |Run(f, n)|
    ensures Gone(f, n, k) <= Labels(f)
    ensures k > 0 ==> n in Gone(f, n, k)
  {
    RunLabels(f, n);
    SplitLabels(Run(f, n), k);
  }

  ghost predicate Fits<N>(f: seq<Tree<N>>, n: N, k: nat, mid: seq<Tree<N>>) {
    && n in Labels(f) && k <= |Run(f, n)|
    && Distinct(f) && Distinct(mid)
    && Labels(mid) !! Labels(f) - Gone(f, n, k)
  }

  lemma {:induction false} SpliceLabels<N>(f: seq<Tree<N>>, n: N, k: nat, mid: seq<Tree<N>>)
    requires Fits(f, n, k, mid)
    ensures Labels(Splice(f, n, k, mid)) == Labels(f) - Gone(f, n, k) + Labels(mid)
    ensures Distinct(Splice(f, n, k, mid))
  {
    GoneLabels(f, n, k);
    if f[0].op == n {
      SplitLabels(f, k);
      LabelsConcat(mid, f[k..]);
    } else if n in Labels(f[0].kids) {
      GoneLabels(f[0].kids, n, k);
      SpliceLabels(f[0].kids, n, k, mid);
    } else {
      GoneLabels(f[1..], n, k);
      SpliceLabels(f[1..], n, k, mid);
    }
  }

  /** The list does not hang below, or next to, one of its own nodes. */
  ghost predicate Outside<T>(f: seq<Tree<TreeNode<T>>>, p: TreeNode?<T>, a: TreeNode?<T>, b: TreeNode?<T>) {
    p !in Labels(f) && a !in Labels(f) && b !in Labels(f)
  }

  /** Where the links of a node can lead, and which node is first. */
  lemma {:induction false} LinkTargets<T>(f: seq<Tree<TreeNode<T>>>, p: TreeNode?<T>, a: TreeNode?<T>, b: TreeNode?<T>, n: TreeNode<T>)
    requires n in Labels(f) && Distinct(f) && Outside(f, p, a, b)
    ensures var l := LinkOf(f, p, a, b, n);
      && (l.parent == p || l.parent in Labels(f))
      && (l.prev == a || l.prev == null || l.prev in Labels(f))
      && (l.next == b || l.next == null || l.next in Labels(f))
      && (l.parent == p && l.prev == a <==> n == f[0].op)
      && (l.parent == p && l.prev == null ==> n == f[0].op)
      && (a != null && l.prev == a ==> n == f[0].op)
  {
    var t := f[0];
    if n == t.op {
      if |f| > 1 { TopIsLabel(f[1..], 0); }
    } else if n in Labels(t.kids) {
      LinkTargets(t.kids, t.op, null, null, n);
    } else {
      LinkTargets(f[1..], p, t.op, b, n);
    }
  }

  /** Where the list ends to the right of the k siblings starting at n. */
  lemma {:induction false} RightTargets<T>(f: seq<Tree<TreeNode<T>>>, n: TreeNode<T>, k: nat, b: TreeNode?<T>)
    requires n in Labels(f) && k <= |Run(f, n)| && Distinct(f)
    ensures Right(f, n, k, b) == b || Right(f, n, k, b) == null || Right(f, n, k, b) in Labels(f)
  {
    if f[0].op == n {
      if k < |f| { TopIsLabel(f, k); }
    } else if n in Labels(f[0].kids) {
      RightTargets(f[0].kids, n, k, null);
    } else {
      RightTargets(f[1..], n, k, b);
    }
  }

  lemma {:induction false} SpliceHead<T>(f: seq<Tree<TreeNode<T>>>, n: TreeNode<T>, k: nat, mid: seq<Tree<TreeNode<T>>>,
                                         p: TreeNode?<T>, a: TreeNode?<T>, b: TreeNode?<T>)
    requires Fits(f, n, k, mid) && Outside(f, p, a, b)
    ensures var l := LinkOf(f, p, a, b, n);
      Head(Splice(f, n, k, mid), b) == (if l.parent == p && l.prev == a then Head(mid, Right(f, n, k, b)) else Head(f, b))
  {
    LinkTargets(f, p, a, b, n);
  }

  lemma {:induction false} SpliceLast<T>(f: seq<Tree<TreeNode<T>>>, n: TreeNode<T>, k: nat, mid: seq<Tree<TreeNode<T>>>, a: TreeNode?<T>)
    requires f != [] && n in Labels(f[1..]) && n !in Labels(f[0].kids) && n != f[0].op && k <= |Run(f, n)|
    ensures Tail(Splice(f, n, k, mid), a) == Tail(Splice(f[1..], n, k, mid), f[0].op)
    ensures Tail(f, a) == Tail(f[1..], f[0].op)
  {
  }

  lemma {:induction false} SpliceTail<T>(f: seq<Tree<TreeNode<T>>>, n: TreeNode<T>, k: nat, mid: seq<Tree<TreeNode<T>>>,
                                         p: TreeNode?<T>, a: TreeNode?<T>, b: TreeNode?<T>)
    requires Fits(f, n, k, mid) && Outside(f, p, a, b)
    ensures var l := LinkOf(f, p, a, b, n);
      Tail(Splice(f, n, k, mid), a) == (if l.parent == p && Right(f, n, k, b) == b then Tail(mid, l.prev) else Tail(f, a))
  {
    var t := f[0];
    if t.op == n {
      if k < |f| { TopIsLabel(f, k); }
    } else if n in Labels(t.kids) {
      LinkTargets(t.kids, t.op, null, null, n);
    } else {
      GoneLabels(f[1..], n, k);
      SpliceLast(f, n, k, mid, a);
      SpliceTail(f[1..], n, k, mid, p, t.op, b);
    }
  }

  /** The links after a splice: inside mid they are those of mid hung between
      the neighbours, elsewhere only the neighbours' links move. */
  ghost function LinksAfter<T>(f: seq<Tree<TreeNode<T>>>, n: TreeNode<T>, k: nat, mid: seq<Tree<TreeNode<T>>>,
                               p: TreeNode?<T>, a: TreeNode?<T>, b: TreeNode?<T>, m: TreeNode<T>): Link<T>
    requires n in Labels(f) && k <= |Run(f, n)| && m in Labels(f) + Labels(mid)
  {
    var l, r := LinkOf(f, p, a, b, n), Right(f, n, k, b);
    if m in Labels(mid) then LinkOf(mid, l.parent, l.prev, r, m)
    else Adjust(LinkOf(f, p, a, b, m), m, l.parent, l.prev, r, Head(mid, r), Tail(mid, l.prev))
  }

  ghost predicate SpliceCase<T>(f: seq<Tree<TreeNode<T>>>, n: TreeNode<T>, k: nat, mid: seq<Tree<TreeNode<T>>>,
                                p: TreeNode?<T>, a: TreeNode?<T>, b: TreeNode?<T>, m: TreeNode<T>) {
    && Fits(f, n, k, mid) && Outside(f, p, a, b) && Outside(mid, p, a, b)
    && m in Labels(f) - Gone(f, n, k) + Labels(mid)
  }

  lemma {:induction false} SpliceLinks<T>(f: seq<Tree<TreeNode<T>>>, n: TreeNode<T>, k: nat, mid: seq<Tree<TreeNode<T>>>,
                                          p: TreeNode?<T>, a: TreeNode?<T>, b: TreeNode?<T>, m: TreeNode<T>)
    requires SpliceCase(f, n, k, mid, p, a, b, m)
    ensures m in Labels(Splice(f, n, k, mid))
    ensures LinkOf(Splice(f, n, k, mid), p, a, b, m) == LinksAfter(f, n, k, mid, p, a, b, m)
    decreases f, 1
  {
    SpliceLabels(f, n, k, mid);
    if f[0].op == n {
      SpliceHere(f, n, k, mid, p, a, b, m);
    } else if n in Labels(f[0].kids) {
      SpliceBelow(f, n, k, mid, p, a, b, m);
    } else {
      SpliceBeyond(f, n, k, mid, p, a, b, m);
    }
  }

  lemma {:induction false} SpliceHere<T>(f: seq<Tree<TreeNode<T>>>, n: TreeNode<T>, k: nat, mid: seq<Tree<TreeNode<T>>>,
                                         p: TreeNode?<T>, a: TreeNode?<T>, b: TreeNode?<T>, m: TreeNode<T>)
    requires SpliceCase(f, n, k, mid, p, a, b, m) && f[0].op == n
    ensures m in Labels(mid + f[k..]) && LinkOf(mid + f[k..], p, a, b, m) == LinksAfter(f, n, k, mid, p, a, b, m)
  {
    var rest, r := f[k..], Right(f, n, k, b);
    assert f == f[..k] + rest;
    SplitLabels(f, k);
    LabelsConcat(mid, rest);
    LinkConcat(mid, rest, p, a, b, m);
    if m !in Labels(mid) {
      var c := Tail(f[..k], a);
      LinkConcat(f[..k], rest, p, a, b, m);
      Reframe(rest, p, c, b, p, c, b, m);
      Reframe(rest, p, c, b, p, Tail(mid, a), b, m);
    }
  }

  lemma {:induction false} SpliceBelow<T>(f: seq<Tree<TreeNode<T>>>, n: TreeNode<T>, k: nat, mid: seq<Tree<TreeNode<T>>>,
                                          p: TreeNode?<T>, a: TreeNode?<T>, b: TreeNode?<T>, m: TreeNode<T>)
    requires SpliceCase(f, n, k, mid, p, a, b, m) && f[0].op != n && n in Labels(f[0].kids)
    ensures m in Labels(Splice(f, n, k, mid))
    ensures LinkOf(Splice(f, n, k, mid), p, a, b, m) == LinksAfter(f, n, k, mid, p, a, b, m)
    decreases f, 0
  {
    var t := f[0];
    var kids := Splice(t.kids, n, k, mid);
    GoneLabels(t.kids, n, k);
    SpliceLabels(f, n, k, mid);
    SpliceLabels(t.kids, n, k, mid);
    if m == t.op {
      SpliceParent(t, n, k, mid, p, a, Head(f[1..], b));
    } else if m in Labels(kids) {
      SpliceLinks(t.kids, n, k, mid, t.op, null, null, m);
    } else {
      LinkTargets(t.kids, t.op, null, null, n);
      RightTargets(t.kids, n, k, null);
    }
  }

  lemma {:induction false} SpliceParent<T>(t: Tree<TreeNode<T>>, n: TreeNode<T>, k: nat, mid: seq<Tree<TreeNode<T>>>,
                                           p: TreeNode?<T>, a: TreeNode?<T>, b: TreeNode?<T>)
    requires Fits(t.kids, n, k, mid) && t.op !in Labels(t.kids)
    requires a != t.op && b != t.op
    ensures var l, r := LinkOf(t.kids, t.op, null, null, n), Right(t.kids, n, k, null);
      var kids := Splice(t.kids, n, k, mid);
      Adjust(Link(p, a, b, Head(t.kids, null), Tail(t.kids, null)), t.op, l.parent, l.prev, r, Head(mid, r), Tail(mid, l.prev))
        == Link(p, a, b, Head(kids, null), Tail(kids, null))
  {
    LinkTargets(t.kids, t.op, null, null, n);
    RightTargets(t.kids, n, k, null);
    SpliceHead(t.kids, n, k, mid, t.op, null, null);
    SpliceTail(t.kids, n, k, mid, t.op, null, null);
  }

  lemma {:induction false} SpliceBeyond<T>(f: seq<Tree<TreeNode<T>>>, n: TreeNode<T>, k: nat, mid: seq<Tree<TreeNode<T>>>,
                                           p: TreeNode?<T>, a: TreeNode?<T>, b: TreeNode?<T>, m: TreeNode<T>)
    requires SpliceCase(f, n, k, mid, p, a, b, m) && f[0].op != n && n !in Labels(f[0].kids)
    ensures m in Labels(Splice(f, n, k, mid))
    ensures LinkOf(Splice(f, n, k, mid), p, a, b, m) == LinksAfter(f, n, k, mid, p, a, b, m)
    decreases f, 0
  {
    var t := f[0];
    GoneLabels(f[1..], n, k);
    assert t.op !in Labels(mid);
    SpliceLabels(f, n, k, mid);
    SpliceLabels(f[1..], n, k, mid);
    if m == t.op || m in Labels(t.kids) {
      LinkTargets(f[1..], p, t.op, b, n);
      RightTargets(f[1..], n, k, b);
      if m == t.op { SpliceHead(f[1..], n, k, mid, p, t.op, b); }
    } else {
      SpliceLinks(f[1..], n, k, mid, p, t.op, b, m);
    }
  }

  // ---------- reading the links ----------

  /** A node of the forest with the three neighbours its list hangs between. */
  ghost predicate Framed<T>(f: seq<Tree<TreeNode<T>>>, p: TreeNode?<T>, a: TreeNode?<T>, b: TreeNode?<T>, n: TreeNode<T>) {
    Distinct(f) && Outside(f, p, a, b) && n in Labels(f)
  }

  /** Walking right from n visits the run of n one sibling at a time. */
  lemma {:induction false} RunLinks<T>(f: seq<Tree<TreeNode<T>>>, p: TreeNode?<T>, a: TreeNode?<T>, b: TreeNode?<T>,
                                       n: TreeNode<T>, i: nat)
    requires Framed(f, p, a, b, n) && i < |Run(f, n)|
    ensures var x := Run(f, n)[i].op;
      && x in Labels(f) && Right(f, n, i, b) == x
      && LinkOf(f, p, a, b, x).next == Right(f, n, i + 1, b)
      && LinkOf(f, p, a, b, x).parent == LinkOf(f, p, a, b, n).parent
  {
    var t := f[0];
    if n == t.op {
      TopIsLabel(f, i);
      TopLinks(f, p, a, b, i);
    } else if n in Labels(t.kids) {
      RunLinks(t.kids, t.op, null, null, n, i);
    } else {
      RunLinks(f[1..], p, t.op, b, n, i);
    }
  }

  lemma {:induction false} TopLinks<T>(f: seq<Tree<TreeNode<T>>>, p: TreeNode?<T>, a: TreeNode?<T>, b: TreeNode?<T>, i: nat)
    requires Distinct(f) && i < |f|
    ensures f[i].op in Labels(f)
    ensures LinkOf(f, p, a, b, f[i].op).next == Head(f[i + 1..], b)
    ensures LinkOf(f, p, a, b, f[i].op).parent == p
  {
    TopIsLabel(f, i);
    if i > 0 {
      TopIsLabel(f[1..], i - 1);
      TopLinks(f[1..], p, f[0].op, b, i - 1);
    }
  }

  /** A run that reaches the end of the outermost list holds its last node. */
  lemma {:induction false} OutermostRun<T>(f: seq<Tree<TreeNode<T>>>, p: TreeNode?<T>, a: TreeNode?<T>, b: TreeNode?<T>,
                                           n: TreeNode<T>, k: nat)
    requires Framed(f, p, a, b, n) && k <= |Run(f, n)|
    requires LinkOf(f, p, a, b, n).parent == p && (Right(f, n, k, b) == null || Right(f, n, k, b) == b)
    ensures k > 0 && f[|f| - 1].op in Gone(f, n, k)
  {
    var t := f[0];
    if n == t.op {
      if k < |f| { TopIsLabel(f, k); }
      assert f[..k] == f;
      TopIsLabel(f, |f| - 1);
    } else if n in Labels(t.kids) {
      LinkTargets(t.kids, t.op, null, null, n);
    } else {
      OutermostRun(f[1..], p, t.op, b, n, k);
    }
  }

  /** The links inside a run are those of the run hung between its neighbours. */
  lemma {:induction false} InsideRun<T>(f: seq<Tree<TreeNode<T>>>, p: TreeNode?<T>, a: TreeNode?<T>, b: TreeNode?<T>,
                                        n: TreeNode<T>, k: nat, m: TreeNode<T>)
    requires Framed(f, p, a, b, n) && k <= |Run(f, n)| && m in Gone(f, n, k)
    ensures m in Labels(f)
    ensures var l := LinkOf(f, p, a, b, n);
      LinkOf(f, p, a, b, m) == LinkOf(Run(f, n)[..k], l.parent, l.prev, Right(f, n, k, b), m)
  {
    var t := f[0];
    GoneLabels(f, n, k);
    if n == t.op {
      SplitLabels(f, k);
      assert f == f[..k] + f[k..];
      LinkConcat(f[..k], f[k..], p, a, b, m);
    } else if n in Labels(t.kids) {
      GoneLabels(t.kids, n, k);
      InsideRun(t.kids, t.op, null, null, n, k, m);
    } else {
      GoneLabels(f[1..], n, k);
      InsideRun(f[1..], p, t.op, b, n, k, m);
    }
  }

  /** The links below n are those of its child list. */
  lemma {:induction false} InsideKids<T>(f: seq<Tree<TreeNode<T>>>, p: TreeNode?<T>, a: TreeNode?<T>, b: TreeNode?<T>,
                                         n: TreeNode<T>, m: TreeNode<T>)
    requires Framed(f, p, a, b, n) && m in Labels(Find(f, n).kids)
    ensures m in Labels(f) && m != n
    ensures LinkOf(f, p, a, b, m) == LinkOf(Find(f, n).kids, n, null, null, m)
  {
    var t := f[0];
    RunLabels(f, n);
    if n != t.op {
      if n in Labels(t.kids) {
        RunLabels(t.kids, n);
        InsideKids(t.kids, t.op, null, null, n, m);
      } else {
        RunLabels(f[1..], n);
        InsideKids(f[1..], p, t.op, b, n, m);
      }
    }
  }

  lemma {:induction false} EndsOfKids<T>(f: seq<Tree<TreeNode<T>>>, p: TreeNode?<T>, a: TreeNode?<T>, b: TreeNode?<T>,
                                         n: TreeNode<T>)
    requires Framed(f, p, a, b, n)
    ensures LinkOf(f, p, a, b, n).first == Head(Find(f, n).kids, null)
    ensures LinkOf(f, p, a, b, n).last == Tail(Find(f, n).kids, null)
  {
    var t := f[0];
    if n != t.op {
      if n in Labels(t.kids) {
        EndsOfKids(t.kids, t.op, null, null, n);
      } else {
        EndsOfKids(f[1..], p, t.op, b, n);
      }
    }
  }

  lemma {:induction false} SpliceIdentity<N>(f: seq<Tree<N>>, n: N, k: nat)
    requires n in Labels(f) && k <= |Run(f, n)|
    ensures Splice(f, n, k, Run(f, n)[..k]) == f
  {
    if f[0].op == n {
      assert f[..k] + f[k..] == f;
    } else if n in Labels(f[0].kids) {
      SpliceIdentity(f[0].kids, n, k);
    } else {
      SpliceIdentity(f[1..], n, k);
    }
  }

  /** The neighbours of a run point back at it. */
  lemma {:induction false} Mirrored<T>(f: seq<Tree<TreeNode<T>>>, p: TreeNode?<T>, a: TreeNode?<T>, b: TreeNode?<T>,
                                       n: TreeNode<T>, k: nat, m: TreeNode<T>)
    requires Framed(f, p, a, b, n) && k <= |Run(f, n)| && m in Labels(f) - Gone(f, n, k)
    ensures var l, r, run := LinkOf(f, p, a, b, n), Right(f, n, k, b), Run(f, n)[..k];
      LinkOf(f, p, a, b, m) == Adjust(LinkOf(f, p, a, b, m), m, l.parent, l.prev, r, Head(run, r), Tail(run, l.prev))
  {
    RunLabels(f, n);
    GoneLabels(f, n, k);
    SplitLabels(Run(f, n), k);
    SpliceIdentity(f, n, k);
    SpliceLinks(f, n, k, Run(f, n)[..k], p, a, b, m);
  }

  /** The neighbours of a run are not inside it. */
  lemma {:induction false} NeighboursOutside<T>(f: seq<Tree<TreeNode<T>>>, p: TreeNode?<T>, a: TreeNode?<T>, b: TreeNode?<T>,
                                                n: TreeNode<T>, k: nat)
    requires Framed(f, p, a, b, n) && k <= |Run(f, n)|
    ensures var l, r := LinkOf(f, p, a, b, n), Right(f, n, k, b);
      l.parent !in Gone(f, n, k) && l.prev !in Gone(f, n, k) && r !in Gone(f, n, k)
  {
    GoneLabels(f, n, k);
    var t := f[0];
    if n == t.op {
      SplitLabels(f, k);
      if k < |f| { TopIsLabel(f[k..], 0); }
    } else if n in Labels(t.kids) {
      NeighboursOutside(t.kids, t.op, null, null, n, k);
    } else {
      NeighboursOutside(f[1..], p, t.op, b, n, k);
    }
  }

  // ---------- edits at one gap ----------

  /** The forest g arises from f by putting mid between a and b below p, where
      nothing of f that stays in g stood: inside mid the links are those of mid
      hung there, elsewhere only the links of p, a and b into the gap move. */
  ghost predicate Edits<T>(f: seq<Tree<TreeNode<T>>>, g: seq<Tree<TreeNode<T>>>, mid: seq<Tree<TreeNode<T>>>,
                           p: TreeNode?<T>, a: TreeNode?<T>, b: TreeNode?<T>) {
    && Labels(mid) <= Labels(g) <= Labels(f) + Labels(mid)
    && forall m :: m in Labels(g) ==>
      LinkOf(g, null, null, null, m) ==
        if m in Labels(mid) then LinkOf(mid, p, a, b, m)
        else Adjust(LinkOf(f, null, null, null, m), m, p, a, b, Head(mid, b), Tail(mid, a))
  }

  lemma {:induction false} SpliceEdits<T>(f: seq<Tree<TreeNode<T>>>, n: TreeNode<T>, k: nat, mid: seq<Tree<TreeNode<T>>>)
    requires Fits(f, n, k, mid)
    ensures var l := LinkOf(f, null, null, null, n);
      Edits(f, Splice(f, n, k, mid), mid, l.parent, l.prev, Right(f, n, k, null))
  {
    var g := Splice(f, n, k, mid);
    SpliceLabels(f, n, k, mid);
    forall m | m in Labels(g) ensures LinkOf(g, null, null, null, m) == LinksAfter(f, n, k, mid, null, null, null, m) {
      SpliceLinks(f, n, k, mid, null, null, null, m);
    }
  }

  /** The forest with mid added to the right of n. */
  ghost function Beside<N>(f: seq<Tree<N>>, n: N, mid: seq<Tree<N>>): seq<Tree<N>>
    requires n in Labels(f)
  {
    Splice(f, n, 1, [Find(f, n)] + mid)
  }

  /** The forest with mid added behind the children of n. */
  ghost function Below<N>(f: seq<Tree<N>>, n: N, mid: seq<Tree<N>>): seq<Tree<N>>
    requires n in Labels(f)
  {
    Splice(f, n, 1, [Node(n, Find(f, n).kids + mid)])
  }

  ghost predicate Fresh<N>(f: seq<Tree<N>>, n: N, mid: seq<Tree<N>>) {
    Distinct(f) && Distinct(mid) && n in Labels(f) && Labels(mid) !! Labels(f)
  }

  lemma {:induction false} FindLabels<N>(f: seq<Tree<N>>, n: N)
    requires n in Labels(f)
    ensures Gone(f, n, 1) == Labels([Find(f, n)]) == {n} + Labels(Find(f, n).kids)
    ensures Labels(Find(f, n).kids) <= Labels(f)
    ensures Distinct(f) ==> Distinct([Find(f, n)]) && Distinct(Find(f, n).kids) && n !in Labels(Find(f, n).kids)
  {
    var t := Find(f, n);
    assert [t][1..] == [];
    assert Run(f, n)[..1] == [t];
    GoneLabels(f, n, 1);
    RunLabels(f, n);
    SplitLabels(Run(f, n), 1);
  }

  lemma {:induction false} BesideFits<N>(f: seq<Tree<N>>, n: N, mid: seq<Tree<N>>)
    requires Fresh(f, n, mid)
    ensures Fits(f, n, 1, [Find(f, n)] + mid)
    ensures Labels([Find(f, n)] + mid) == Gone(f, n, 1) + Labels(mid)
  {
    FindLabels(f, n);
    LabelsConcat([Find(f, n)], mid);
  }

  lemma {:induction false} BelowFits<N>(f: seq<Tree<N>>, n: N, mid: seq<Tree<N>>)
    requires Fresh(f, n, mid)
    ensures Fits(f, n, 1, [Node(n, Find(f, n).kids + mid)])
    ensures Labels([Node(n, Find(f, n).kids + mid)]) == Gone(f, n, 1) + Labels(mid)
    ensures Distinct(Find(f, n).kids + mid) && n !in Labels(Find(f, n).kids + mid)
  {
    FindLabels(f, n);
    LabelsConcat(Find(f, n).kids, mid);
    assert [Node(n, Find(f, n).kids + mid)][1..] == [];
  }

  lemma {:induction false} BesideEdits<T>(f: seq<Tree<TreeNode<T>>>, n: TreeNode<T>, mid: seq<Tree<TreeNode<T>>>)
    requires Fresh(f, n, mid)
    ensures Labels(Beside(f, n, mid)) == Labels(f) + Labels(mid)
    ensures var l := LinkOf(f, null, null, null, n);
      Edits(f, Beside(f, n, mid), mid, l.parent, n, Right(f, n, 1, null))
  {
    BesideFits(f, n, mid);
    GoneLabels(f, n, 1);
    SpliceLabels(f, n, 1, [Find(f, n)] + mid);
    var g, l := Beside(f, n, mid), LinkOf(f, null, null, null, n);
    forall m | m in Labels(g) ensures LinkOf(g, null, null, null, m) == LinksBeside(f, n, mid, m) {
      BesideLinks(f, n, mid, m);
    }
  }

  ghost function LinksBeside<T>(f: seq<Tree<TreeNode<T>>>, n: TreeNode<T>, mid: seq<Tree<TreeNode<T>>>, m: TreeNode<T>): Link<T>
    requires n in Labels(f) && m in Labels(f) + Labels(mid)
  {
    var l, r := LinkOf(f, null, null, null, n), Right(f, n, 1, null);
    if m in Labels(mid) then LinkOf(mid, l.parent, n, r, m)
    else Adjust(LinkOf(f, null, null, null, m), m, l.parent, n, r, Head(mid, r), Tail(mid, n))
  }

  lemma {:induction false} BesideLinks<T>(f: seq<Tree<TreeNode<T>>>, n: TreeNode<T>, mid: seq<Tree<TreeNode<T>>>, m: TreeNode<T>)
    requires Fresh(f, n, mid) && m in Labels(f) + Labels(mid)
    ensures m in Labels(Beside(f, n, mid)) && LinkOf(Beside(f, n, mid), null, null, null, m) == LinksBeside(f, n, mid, m)
  {
    var l, r, one := LinkOf(f, null, null, null, n), Right(f, n, 1, null), [Find(f, n)];
    BesideFits(f, n, mid);
    FindLabels(f, n);
    GoneLabels(f, n, 1);
    SpliceLinks(f, n, 1, one + mid, null, null, null, m);
    if m in Labels(one + mid) {
      LinkConcat(one, mid, l.parent, l.prev, r, m);
      if m !in Labels(mid) {
        assert Run(f, n)[..1] == one;
        NeighboursOutside(f, null, null, null, n, 1);
        InsideRun(f, null, null, null, n, 1, m);
        Reframe(one, l.parent, l.prev, r, l.parent, l.prev, Head(mid, r), m);
      }
    } else {
      Mirrored(f, null, null, null, n, 1, m);
    }
  }

  ghost function LinksBelow<T>(f: seq<Tree<TreeNode<T>>>, n: TreeNode<T>, mid: seq<Tree<TreeNode<T>>>, m: TreeNode<T>): Link<T>
    requires n in Labels(f) && m in Labels(f) + Labels(mid)
  {
    var last := Tail(Find(f, n).kids, null);
    if m in Labels(mid) then LinkOf(mid, n, last, null, m)
    else Adjust(LinkOf(f, null, null, null, m), m, n, last, null, Head(mid, null), Tail(mid, last))
  }

  lemma {:induction false} BelowEdits<T>(f: seq<Tree<TreeNode<T>>>, n: TreeNode<T>, mid: seq<Tree<TreeNode<T>>>)
    requires Fresh(f, n, mid)
    ensures Labels(Below(f, n, mid)) == Labels(f) + Labels(mid)
    ensures Edits(f, Below(f, n, mid), mid, n, Tail(Find(f, n).kids, null), null)
  {
    BelowFits(f, n, mid);
    GoneLabels(f, n, 1);
    SpliceLabels(f, n, 1, [Node(n, Find(f, n).kids + mid)]);
    var g := Below(f, n, mid);
    forall m | m in Labels(g) ensures LinkOf(g, null, null, null, m) == LinksBelow(f, n, mid, m) {
      BelowLinks(f, n, mid, m);
    }
  }

  lemma {:induction false} BelowLinks<T>(f: seq<Tree<TreeNode<T>>>, n: TreeNode<T>, mid: seq<Tree<TreeNode<T>>>, m: TreeNode<T>)
    requires Fresh(f, n, mid) && m in Labels(f) + Labels(mid)
    ensures m in Labels(Below(f, n, mid)) && LinkOf(Below(f, n, mid), null, null, null, m) == LinksBelow(f, n, mid, m)
  {
    var l, r, kids := LinkOf(f, null, null, null, n), Right(f, n, 1, null), Find(f, n).kids;
    BelowFits(f, n, mid);
    FindLabels(f, n);
    GoneLabels(f, n, 1);
    SpliceLinks(f, n, 1, [Node(n, kids + mid)], null, null, null, m);
    if m == n {
      EndsOfKids(f, null, null, null, n);
      InsideRun(f, null, null, null, n, 1, n);
      if kids != [] { TopIsLabel(kids, |kids| - 1); }
    } else if m in Labels(kids + mid) {
      InsideList(kids, mid, n, m);
      if m !in Labels(mid) { InsideKids(f, null, null, null, n, m); }
    } else {
      Mirrored(f, null, null, null, n, 1, m);
      if kids != [] { TopIsLabel(kids, |kids| - 1); }
    }
  }

  /** Lengthening the child list of n moves only the last child's right link. */
  lemma {:induction false} InsideList<T>(kids: seq<Tree<TreeNode<T>>>, mid: seq<Tree<TreeNode<T>>>, n: TreeNode<T>, m: TreeNode<T>)
    requires Distinct(kids + mid) && m in Labels(kids + mid) && n !in Labels(kids + mid)
    ensures m in Labels(kids) <==> m !in Labels(mid)
    ensures var last := Tail(kids, null);
      LinkOf(kids + mid, n, null, null, m) ==
        if m in Labels(mid) then LinkOf(mid, n, last, null, m)
        else Adjust(LinkOf(kids, n, null, null, m), m, n, last, null, Head(mid, null), Tail(mid, last))
  {
    LabelsConcat(kids, mid);
    LinkConcat(kids, mid, n, null, null, m);
    if m !in Labels(mid) {
      Reframe(kids, n, null, null, n, null, null, m);
      Reframe(kids, n, null, null, n, null, Head(mid, null), m);
    }
  }
}
