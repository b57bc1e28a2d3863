/** The edits of the tree container as edits of the forest of nodes: what each
    one does to the list between the sentinels, and to the pointers. */
module TreeEdits {
  import opened Trees
  import opened TreeLinks

  type Forest<T> = seq<Tree<TreeNode<T>>>

  ghost function PointersOf<T>(f: Forest<T>, m: TreeNode<T>): Link<T>
    requires m in Labels(f)
  {
    LinkOf(f, null, null, null, m)
  }

  /** The top-level list runs from head to feet, and no node occurs twice. */
  ghost predicate Bounded<T>(f: Forest<T>, head: TreeNode<T>, feet: TreeNode<T>) {
    && Distinct(f) && |f| >= 2
    && f[0] == Leaf(head) && f[|f| - 1] == Leaf(feet)
  }

  /** The k siblings starting at n lie strictly between the sentinels. */
  ghost predicate Inner<T>(f: Forest<T>, head: TreeNode<T>, feet: TreeNode<T>, n: TreeNode<T>, k: nat) {
    && Bounded(f, head, feet) && n in Labels(f) && n != head
    && k <= |Run(f, n)| && feet !in Gone(f, n, k)
  }

  lemma {:induction false} BoundsOf<T>(f: Forest<T>, head: TreeNode<T>, feet: TreeNode<T>)
    requires Bounded(f, head, feet)
    ensures head in Labels(f) && feet in Labels(f) && head != feet
  {
    TopIsLabel(f, |f| - 1);
    TopIsLabel(f[1..], |f| - 2);
  }

  /** Between the sentinels a node has a left neighbour or a parent, and so on
      the right. */
  lemma {:induction false} NeighboursExist<T>(f: Forest<T>, head: TreeNode<T>, feet: TreeNode<T>, n: TreeNode<T>, k: nat)
    requires Inner(f, head, feet, n, k)
    ensures var l, r := PointersOf(f, n), Right(f, n, k, null);
      && (l.parent != null || (l.prev != null && r != null))
      && (l.parent != null ==> l.parent in Labels(f) - Gone(f, n, k))
      && (l.prev != null ==> l.prev in Labels(f) - Gone(f, n, k))
      && (r != null ==> r in Labels(f) - Gone(f, n, k))
  {
    LinkTargets(f, null, null, null, n);
    RightTargets(f, n, k, null);
    if PointersOf(f, n).parent == null && Right(f, n, k, null) == null {
      OutermostRun(f, null, null, null, n, k);
    }
    NeighboursOutside(f, null, null, null, n, k);
  }

  /** A splice between the sentinels leaves the sentinels in place. */
  lemma {:induction false} SpliceBounded<T>(f: Forest<T>, head: TreeNode<T>, feet: TreeNode<T>, n: TreeNode<T>, k: nat, mid: Forest<T>)
    requires Inner(f, head, feet, n, k) && Fits(f, n, k, mid)
    ensures Bounded(Splice(f, n, k, mid), head, feet)
  {
    SpliceLabels(f, n, k, mid);
    GoneLabels(f, n, k);
    TopIsLabel(f, |f| - 1);
    SpliceEnd(f[1..], n, k, mid);
    assert Splice(f, n, k, mid) == [f[0]] + Splice(f[1..], n, k, mid);
  }

  lemma {:induction false} SpliceEnd<T>(f: Forest<T>, n: TreeNode<T>, k: nat, mid: Forest<T>)
    requires n in Labels(f) && k <= |Run(f, n)| && Distinct(f) && f[|f| - 1].kids == []
    requires f[|f| - 1].op !in Gone(f, n, k)
    ensures var g := Splice(f, n, k, mid);
      g != [] && g[|g| - 1] == f[|f| - 1]
  {
    if n == f[0].op {
      TopIsLabel(f, |f| - 1);
      assert f[..|f|] == f;
      assert f[k..] != [];
      assert (mid + f[k..])[|mid + f[k..]| - 1] == f[|f| - 1];
    } else if n !in Labels(f[0].kids) {
      SpliceEnd(f[1..], n, k, mid);
    }
  }

  /** What stands between a and b below p can be relinked. */
  ghost predicate Neighbours<T>(ns: set<TreeNode<T>>, p: TreeNode?<T>, a: TreeNode?<T>, b: TreeNode?<T>) {
    && (p != null || (a != null && b != null))
    && (p != null ==> p in ns) && (a != null ==> a in ns) && (b != null ==> b in ns)
  }

  lemma {:induction false} InnerEdits<T>(f: Forest<T>, head: TreeNode<T>, feet: TreeNode<T>, n: TreeNode<T>, k: nat, mid: Forest<T>)
    requires Inner(f, head, feet, n, k) && Fits(f, n, k, mid)
    ensures var l, r := PointersOf(f, n), Right(f, n, k, null);
      && Edits(f, Splice(f, n, k, mid), mid, l.parent, l.prev, r)
      && Neighbours(Labels(f) - Gone(f, n, k), l.parent, l.prev, r)
    ensures Labels(Splice(f, n, k, mid)) == Labels(f) - Gone(f, n, k) + Labels(mid)
    ensures Bounded(Splice(f, n, k, mid), head, feet)
  {
    SpliceEdits(f, n, k, mid);
    NeighboursExist(f, head, feet, n, k);
    SpliceLabels(f, n, k, mid);
    SpliceBounded(f, head, feet, n, k, mid);
  }

  lemma {:induction false} SentinelLinks<T>(head: TreeNode<T>, feet: TreeNode<T>)
    requires head != feet
    ensures var f := [Leaf(head), Leaf(feet)];
      && Bounded(f, head, feet) && Labels(f) == {head, feet}
      && PointersOf(f, head) == Link(null, null, feet, null, null)
      && PointersOf(f, feet) == Link(null, head, null, null, null)
  {
    var f: Forest<T> := [Leaf(head), Leaf(feet)];
    var g: Forest<T> := [Leaf(feet)];
    assert f[1..] == g && g[1..] == [];
    assert Labels(g) == {feet} && Distinct(g);
    assert LinkOf(g, null, head, null, feet) == Link(null, head, null, null, null);
  }

  ghost function Roots<N>(f: seq<Tree<N>>): (rs: seq<N>)
    ensures |rs| == |f| && forall i | 0 <= i < |f| :: rs[i] == f[i].op
  {
    seq(|f|, i requires 0 <= i < |f| => f[i].op)
  }

  /** The list mid of the nodes own runs from first to last. */
  ghost predicate Siblings<T>(mid: Forest<T>, own: set<TreeNode<T>>, first: TreeNode<T>, last: TreeNode<T>) {
    Labels(mid) == own && Distinct(mid) && mid != [] && mid[0].op == first && mid[|mid| - 1].op == last
  }

  lemma {:induction false} LeafLinks<T>(n: TreeNode<T>, p: TreeNode?<T>, a: TreeNode?<T>, b: TreeNode?<T>)
    ensures Labels([Leaf(n)]) == {n} && Distinct([Leaf(n)])
    ensures LinkOf([Leaf(n)], p, a, b, n) == Link(p, a, b, null, null)
  {
    assert [Leaf(n)][1..] == [];
  }

  lemma {:induction false} NewLeaf<T>(f: Forest<T>, n: TreeNode<T>, tmp: TreeNode<T>)
    requires Distinct(f) && n in Labels(f) && tmp !in Labels(f)
    ensures Fresh(f, n, [Leaf(tmp)])
  {
    Single(Leaf(tmp));
  }

  /** The forest g is f with mid grown between a and b below p. */
  ghost predicate GraftEdit<T>(f: Forest<T>, g: Forest<T>, head: TreeNode<T>, feet: TreeNode<T>, mid: Forest<T>,
                               p: TreeNode?<T>, a: TreeNode?<T>, b: TreeNode?<T>) {
    && Edits(f, g, mid, p, a, b) && Bounded(g, head, feet)
    && Labels(mid) !! Labels(f) && Labels(g) == Labels(f) + Labels(mid) && Neighbours(Labels(f), p, a, b)
  }

  lemma {:induction false} InsertEdit<T>(f: Forest<T>, head: TreeNode<T>, feet: TreeNode<T>, n: TreeNode<T>, mid: Forest<T>)
    requires Bounded(f, head, feet) && n != head && Fresh(f, n, mid)
    ensures var l := PointersOf(f, n);
      GraftEdit(f, Splice(f, n, 0, mid), head, feet, mid, l.parent, l.prev, n)
  {
    RunLinks(f, null, null, null, n, 0);
    InnerEdits(f, head, feet, n, 0, mid);
  }

  /** A tree grown next to or below an inner node stays between the sentinels. */
  lemma {:induction false} GrownBounded<T>(f: Forest<T>, head: TreeNode<T>, feet: TreeNode<T>, n: TreeNode<T>, mid: Forest<T>)
    requires Bounded(f, head, feet) && n != head && n != feet && Fresh(f, n, mid)
    ensures Inner(f, head, feet, n, 1)
    ensures Bounded(Beside(f, n, mid), head, feet) && Bounded(Below(f, n, mid), head, feet)
    ensures var l, r := PointersOf(f, n), Right(f, n, 1, null);
      r == l.next && Neighbours(Labels(f), l.parent, n, r)
  {
    FeetStandsAlone(f, head, feet, n);
    BesideFits(f, n, mid);
    BelowFits(f, n, mid);
    SpliceBounded(f, head, feet, n, 1, [Find(f, n)] + mid);
    SpliceBounded(f, head, feet, n, 1, [Node(n, Find(f, n).kids + mid)]);
    NeighboursExist(f, head, feet, n, 1);
    RunLinks(f, null, null, null, n, 0);
  }

  lemma {:induction false} FeetStandsAlone<T>(f: Forest<T>, head: TreeNode<T>, feet: TreeNode<T>, n: TreeNode<T>)
    requires Bounded(f, head, feet) && n in Labels(f) && n != feet
    ensures feet !in Gone(f, n, 1)
  {
    FindLabels(f, n);
    FeetBelowNone(f, feet, n);
  }

  lemma {:induction false} FeetBelowNone<T>(f: Forest<T>, feet: TreeNode<T>, n: TreeNode<T>)
    requires f != [] && Distinct(f) && f[|f| - 1] == Leaf(feet) && n in Labels(f)
    ensures feet !in Labels(Find(f, n).kids)
  {
    TopIsLabel(f, |f| - 1);
    if n != f[0].op {
      if n in Labels(f[0].kids) {
        FindLabels(f[0].kids, n);
        if |f| > 1 { TopIsLabel(f[1..], |f| - 2); }
      } else {
        FeetBelowNone(f[1..], feet, n);
      }
    } else if |f| > 1 {
      TopIsLabel(f[1..], |f| - 2);
    }
  }

  lemma {:induction false} InsertAfterEdit<T>(f: Forest<T>, head: TreeNode<T>, feet: TreeNode<T>, n: TreeNode<T>, mid: Forest<T>)
    requires Bounded(f, head, feet) && n != head && n != feet && Fresh(f, n, mid)
    ensures var l := PointersOf(f, n);
      GraftEdit(f, Beside(f, n, mid), head, feet, mid, l.parent, n, l.next)
  {
    GrownBounded(f, head, feet, n, mid);
    BesideEdits(f, n, mid);
  }

  lemma {:induction false} AppendEdit<T>(f: Forest<T>, head: TreeNode<T>, feet: TreeNode<T>, n: TreeNode<T>, mid: Forest<T>)
    requires Bounded(f, head, feet) && n != head && n != feet && Fresh(f, n, mid)
    ensures GraftEdit(f, Below(f, n, mid), head, feet, mid, n, PointersOf(f, n).last, null)
  {
    GrownBounded(f, head, feet, n, mid);
    LastKid(f, n);
    BelowEdits(f, n, mid);
  }

  lemma {:induction false} LastKid<T>(f: Forest<T>, n: TreeNode<T>)
    requires Distinct(f) && n in Labels(f)
    ensures var last := PointersOf(f, n).last;
      last == Tail(Find(f, n).kids, null) && (last == null || last in Labels(f))
  {
    EndsOfKids(f, null, null, null, n);
    FindLabels(f, n);
    var kids := Find(f, n).kids;
    if kids != [] { TopIsLabel(kids, |kids| - 1); }
  }

  lemma {:induction false} UnlinkEdit<T>(f: Forest<T>, head: TreeNode<T>, feet: TreeNode<T>, first: TreeNode<T>, k: nat)
    requires Inner(f, head, feet, first, k) && k > 0
    ensures var g, l, last := Splice(f, first, k, []), PointersOf(f, first), Run(f, first)[k - 1].op;
      && last in Labels(f)
      && var r := PointersOf(f, last).next;
        Edits(f, g, [], l.parent, l.prev, r) && Neighbours(Labels(g), l.parent, l.prev, r)
    ensures var g := Splice(f, first, k, []);
      Labels(g) == Labels(f) - Gone(f, first, k) && Bounded(g, head, feet)
  {
    InnerEdits(f, head, feet, first, k, []);
    RunLinks(f, null, null, null, first, k - 1);
  }

  /** Source and target are inner nodes, and target is not inside source. */
  ghost predicate Movable<T>(f: Forest<T>, head: TreeNode<T>, feet: TreeNode<T>, target: TreeNode<T>, source: TreeNode<T>) {
    && Bounded(f, head, feet) && source in Labels(f) && target in Labels(f)
    && source != head && source != feet && target != head && target != feet
    && target !in Gone(f, source, 1)
  }

  /** The forest with the subtree at source moved to the right of target. */
  ghost function MovedAfter<T>(f: Forest<T>, target: TreeNode<T>, source: TreeNode<T>): Forest<T>
    requires Distinct(f) && source in Labels(f) && target in Labels(f) && target !in Gone(f, source, 1)
  {
    SpliceLabels(f, source, 1, []);
    Beside(Splice(f, source, 1, []), target, [Find(f, source)])
  }

  lemma {:induction false} MovableFacts<T>(f: Forest<T>, head: TreeNode<T>, feet: TreeNode<T>, target: TreeNode<T>, source: TreeNode<T>)
    requires Movable(f, head, feet, target, source)
    ensures Inner(f, head, feet, source, 1)
    ensures Run(f, source)[..1] == [Find(f, source)]
    ensures Right(f, target, 1, null) == PointersOf(f, target).next
    ensures Right(f, source, 1, null) == PointersOf(f, source).next
    ensures var g := Splice(f, source, 1, []);
      Labels(g) == Labels(f) - Gone(f, source, 1) && Fresh(g, target, [Find(f, source)])
  {
    FeetStandsAlone(f, head, feet, source);
    FindLabels(f, source);
    SpliceLabels(f, source, 1, []);
    RunLinks(f, null, null, null, target, 0);
    RunLinks(f, null, null, null, source, 0);
  }

  lemma {:induction false} AlreadyAfter<T>(f: Forest<T>, target: TreeNode<T>, source: TreeNode<T>)
    requires Distinct(f) && source in Labels(f) && target in Labels(f) && target !in Gone(f, source, 1)
    requires Right(f, target, 1, null) == source
    ensures MovedAfter(f, target, source) == f
  {
    AlreadyBeside(f, target, source, null);
  }

  lemma {:induction false} AlreadyBeside<T>(f: Forest<T>, target: TreeNode<T>, source: TreeNode<T>, b: TreeNode?<T>)
    requires Distinct(f) && source in Labels(f) && target in Labels(f) && target !in Gone(f, source, 1)
    requires Right(f, target, 1, b) == source && source != b
    ensures target in Labels(Splice(f, source, 1, []))
    ensures Beside(Splice(f, source, 1, []), target, [Find(f, source)]) == f
  {
    SpliceLabels(f, source, 1, []);
    var t := f[0];
    if target == t.op {
      AlreadyHere(f, target, source);
    } else if target in Labels(t.kids) {
      RightTargets(t.kids, target, 1, null);
      SpliceLabels(t.kids, source, 1, []);
      AlreadyBeside(t.kids, target, source, null);
    } else {
      RightTargets(f[1..], target, 1, b);
      SpliceLabels(f[1..], source, 1, []);
      AlreadyBeside(f[1..], target, source, b);
    }
  }

  lemma {:induction false} AlreadyHere<T>(f: Forest<T>, target: TreeNode<T>, source: TreeNode<T>)
    requires Distinct(f) && |f| > 1 && f[0].op == target && f[1].op == source
    ensures source in Labels(f) && target in Labels(Splice(f, source, 1, []))
    ensures Beside(Splice(f, source, 1, []), target, [Find(f, source)]) == f
  {
    TopIsLabel(f, 1);
    TopIsLabel(f[1..], 0);
    var g := Splice(f, source, 1, []);
    assert Run(f, source) == f[1..];
    assert Splice(f[1..], source, 1, []) == f[1..][1..] == f[2..];
    assert g == [f[0]] + f[2..];
    assert Beside(g, target, [f[1]]) == [f[0], f[1]] + f[2..];
  }

  /** The forest with the subtree at source moved to the left of target. */
  ghost function MovedBefore<T>(f: Forest<T>, target: TreeNode<T>, source: TreeNode<T>): Forest<T>
    requires Distinct(f) && source in Labels(f) && target in Labels(f) && target !in Gone(f, source, 1)
  {
    SpliceLabels(f, source, 1, []);
    Splice(Splice(f, source, 1, []), target, 0, [Find(f, source)])
  }

  lemma {:induction false} AlreadyBefore<T>(f: Forest<T>, target: TreeNode<T>, source: TreeNode<T>)
    requires Distinct(f) && source in Labels(f) && target in Labels(f) && target !in Gone(f, source, 1)
    requires PointersOf(f, target).prev == source
    ensures MovedBefore(f, target, source) == f
  {
    NeighboursOutside(f, null, null, null, target, 1);
    Mirrored(f, null, null, null, target, 1, source);
    assert PointersOf(f, source).next == target;
    RunLinks(f, null, null, null, source, 0);
    AlreadyAhead(f, target, source, null);
  }

  lemma {:induction false} AlreadyAhead<T>(f: Forest<T>, target: TreeNode<T>, source: TreeNode<T>, b: TreeNode?<T>)
    requires Distinct(f) && source in Labels(f) && target in Labels(f) && target !in Gone(f, source, 1)
    requires Right(f, source, 1, b) == target && target != b
    ensures target in Labels(Splice(f, source, 1, []))
    ensures Splice(Splice(f, source, 1, []), target, 0, [Find(f, source)]) == f
  {
    SpliceLabels(f, source, 1, []);
    var t := f[0];
    if source == t.op {
      assert f == [t] + f[1..];
    } else if source in Labels(t.kids) {
      RightTargets(t.kids, source, 1, null);
      SpliceLabels(t.kids, source, 1, []);
      AlreadyAhead(t.kids, target, source, null);
    } else {
      RightTargets(f[1..], source, 1, b);
      SpliceLabels(f[1..], source, 1, []);
      AlreadyAhead(f[1..], target, source, b);
    }
  }

  /** The k siblings from begin can be moved below position. */
  ghost predicate Reparentable<T>(f: Forest<T>, head: TreeNode<T>, feet: TreeNode<T>, position: TreeNode<T>,
                                  begin: TreeNode<T>, k: nat) {
    && Inner(f, head, feet, begin, k)
    && position in Labels(f) && position != head && position != feet && position !in Gone(f, begin, k)
  }

  /** The forest with the k siblings from begin moved behind the children of position. */
  ghost function Reparented<T>(f: Forest<T>, position: TreeNode<T>, begin: TreeNode<T>, k: nat): Forest<T>
    requires Distinct(f) && begin in Labels(f) && position in Labels(f)
    requires k <= |Run(f, begin)| && position !in Gone(f, begin, k)
  {
    SpliceLabels(f, begin, k, []);
    Below(Splice(f, begin, k, []), position, Run(f, begin)[..k])
  }

  lemma {:induction false} ReparentFacts<T>(f: Forest<T>, head: TreeNode<T>, feet: TreeNode<T>, position: TreeNode<T>,
                         begin: TreeNode<T>, k: nat)
    requires Reparentable(f, head, feet, position, begin, k)
    ensures Fresh(Splice(f, begin, k, []), position, Run(f, begin)[..k])
    ensures begin == Right(f, begin, k, null) <==> k == 0
    ensures k == 0 ==> Reparented(f, position, begin, k) == f
  {
    GoneLabels(f, begin, k);
    RunLabels(f, begin);
    SplitLabels(Run(f, begin), k);
    SpliceLabels(f, begin, k, []);
    NeighboursOutside(f, null, null, null, begin, k);
    if k == 0 {
      RunLinks(f, null, null, null, begin, 0);
      SpliceIdentity(f, begin, 0);
      assert Run(f, begin)[..0] == [];
      SpliceIdentity(f, position, 1);
      var t := Find(f, position);
      assert t.kids + [] == t.kids;
      assert Run(f, position)[..1] == [t];
    }
  }

  /** No two places of a run have the same right neighbour. */
  lemma {:induction false} RightDistinct<T>(f: Forest<T>, n: TreeNode<T>, i: nat, k: nat)
    requires Distinct(f) && n in Labels(f) && i <= k <= |Run(f, n)|
    requires Right(f, n, i, null) == Right(f, n, k, null)
    ensures i == k
  {
    if i < k {
      RunLinks(f, null, null, null, n, i);
      NeighboursOutside(f, null, null, null, n, k);
      assert Run(f, n)[..k][i] == Run(f, n)[i];
      TopIsLabel(Run(f, n)[..k], i);
    }
  }

  /** The forest with the new node tmp between n and its surroundings. */
  ghost function Wrapped<T>(f: Forest<T>, n: TreeNode<T>, tmp: TreeNode<T>): Forest<T>
    requires n in Labels(f)
  {
    Splice(f, n, 1, [Node(tmp, [Find(f, n)])])
  }

  lemma {:induction false} WrapEdit<T>(f: Forest<T>, head: TreeNode<T>, feet: TreeNode<T>, n: TreeNode<T>, tmp: TreeNode<T>)
    requires Bounded(f, head, feet) && n in Labels(f) && n != head && n != feet && tmp !in Labels(f)
    ensures var l, mid := PointersOf(f, n), [Node(tmp, [Find(f, n)])];
      && Labels(mid) == {tmp} + Gone(f, n, 1) && Labels(Wrapped(f, n, tmp)) == Labels(f) + {tmp}
      && Edits(f, Wrapped(f, n, tmp), mid, l.parent, l.prev, l.next) && Bounded(Wrapped(f, n, tmp), head, feet)
      && Neighbours(Labels(f) - Gone(f, n, 1), l.parent, l.prev, l.next)
  {
    WrapFits(f, n, tmp);
    FeetStandsAlone(f, head, feet, n);
    RunLinks(f, null, null, null, n, 0);
    InnerEdits(f, head, feet, n, 1, [Node(tmp, [Find(f, n)])]);
  }

  lemma {:induction false} WrapFits<T>(f: Forest<T>, n: TreeNode<T>, tmp: TreeNode<T>)
    requires Distinct(f) && n in Labels(f) && tmp !in Labels(f)
    ensures var mid := [Node(tmp, [Find(f, n)])];
      Fits(f, n, 1, mid) && Labels(mid) == {tmp} + Gone(f, n, 1) && Gone(f, n, 1) <= Labels(f)
  {
    FindLabels(f, n);
    GoneLabels(f, n, 1);
    Single(Node(tmp, [Find(f, n)]));
  }

  lemma {:induction false} TopFind<N>(f: seq<Tree<N>>, i: nat)
    requires Distinct(f) && i < |f|
    ensures f[i].op in Labels(f) && Find(f, f[i].op) == f[i]
  {
    TopIsLabel(f, i);
    if i > 0 {
      TopIsLabel(f[1..], i - 1);
      TopFind(f[1..], i - 1);
    }
  }

  /** A subtree of a subtree is a subtree. */
  lemma {:induction false} FindBelow<N>(f: seq<Tree<N>>, n: N, m: N)
    requires Distinct(f) && n in Labels(f) && m in Labels(Find(f, n).kids)
    ensures m in Labels(f) && Find(f, m) == Find(Find(f, n).kids, m)
  {
    FindLabels(f, n);
    if n != f[0].op {
      if n in Labels(f[0].kids) {
        FindLabels(f[0].kids, n);
        FindBelow(f[0].kids, n, m);
      } else {
        FindLabels(f[1..], n);
        FindBelow(f[1..], n, m);
      }
    }
  }

  /** The forest without anything below n. */
  ghost function Childless<T>(f: Forest<T>, n: TreeNode<T>): Forest<T>
    requires n in Labels(f)
  {
    Splice(f, n, 1, [Leaf(n)])
  }

  lemma {:induction false} ChildlessLinks<T>(f: Forest<T>, head: TreeNode<T>, feet: TreeNode<T>, n: TreeNode<T>)
    requires Bounded(f, head, feet) && n in Labels(f) && n != head && n != feet
    ensures var g := Childless(f, n);
      && Bounded(g, head, feet) && Labels(g) == Labels(f) - Labels(Find(f, n).kids) && n in Labels(g)
      && forall m :: m in Labels(g) ==>
        PointersOf(g, m) == if m == n then PointersOf(f, n).(first := null, last := null) else PointersOf(f, m)
  {
    var g, l := Childless(f, n), PointersOf(f, n);
    LeafLinks(n, l.parent, l.prev, l.next);
    FeetStandsAlone(f, head, feet, n);
    FindLabels(f, n);
    SpliceLabels(f, n, 1, [Leaf(n)]);
    SpliceBounded(f, head, feet, n, 1, [Leaf(n)]);
    RunLinks(f, null, null, null, n, 0);
    forall m | m in Labels(g)
      ensures PointersOf(g, m) == if m == n then PointersOf(f, n).(first := null, last := null) else PointersOf(f, m)
    {
      SpliceLinks(f, n, 1, [Leaf(n)], null, null, null, m);
      if m != n { Mirrored(f, null, null, null, n, 1, m); }
    }
  }

  /** A splice at n does not care about an earlier one at n. */
  lemma {:induction false} SpliceAgain<N>(f: seq<Tree<N>>, t: Tree<N>, mid: seq<Tree<N>>)
    requires t.op in Labels(f)
    ensures var g := Splice(f, t.op, 1, [t]);
      && t.op in Labels(g) && Find(g, t.op) == t
      && Splice(g, t.op, 1, mid) == Splice(f, t.op, 1, mid)
  {
    var n := t.op;
    var g := Splice(f, n, 1, [t]);
    if f[0].op == n {
      assert g == [t] + f[1..] && g[1..] == f[1..];
    } else if n in Labels(f[0].kids) {
      SpliceAgain(f[0].kids, t, mid);
      assert g == [Node(f[0].op, Splice(f[0].kids, n, 1, [t]))] + f[1..];
      assert g[1..] == f[1..];
    } else {
      SpliceAgain(f[1..], t, mid);
      assert g == [f[0]] + Splice(f[1..], n, 1, [t]);
      assert g[1..] == Splice(f[1..], n, 1, [t]);
    }
  }

  lemma {:induction false} ChildlessAgain<T>(f: Forest<T>, head: TreeNode<T>, feet: TreeNode<T>, n: TreeNode<T>, mid: Forest<T>)
    requires Bounded(f, head, feet) && n in Labels(f) && n != head && n != feet
    ensures var g := Childless(f, n);
      && Inner(g, head, feet, n, 1) && Gone(g, n, 1) == {n} && Run(g, n)[0] == Leaf(n)
      && Splice(g, n, 1, mid) == Splice(f, n, 1, mid)
    ensures Gone(f, n, 1) == {n} + Labels(Find(f, n).kids)
  {
    ChildlessLinks(f, head, feet, n);
    SpliceAgain(f, Leaf(n), mid);
    FindLabels(f, n);
    FindLabels(Childless(f, n), n);
  }

  /** The forest with the children of n moved up, to the right of n. */
  ghost function Flattened<T>(f: Forest<T>, n: TreeNode<T>): Forest<T>
    requires n in Labels(f)
  {
    Splice(f, n, 1, [Leaf(n)] + Find(f, n).kids)
  }

  lemma {:induction false} FlattenedFacts<T>(f: Forest<T>, head: TreeNode<T>, feet: TreeNode<T>, n: TreeNode<T>)
    requires Bounded(f, head, feet) && n in Labels(f) && n != head && n != feet
    ensures var g, kids := Childless(f, n), Find(f, n).kids;
      && Fresh(g, n, kids) && Beside(g, n, kids) == Flattened(f, n)
      && PointersOf(f, n).first == Head(kids, null) && PointersOf(f, n).last == Tail(kids, null)
      && (kids == [] ==> Flattened(f, n) == f)
  {
    var kids := Find(f, n).kids;
    ChildlessLinks(f, head, feet, n);
    FindLabels(f, n);
    EndsOfKids(f, null, null, null, n);
    ChildlessAgain(f, head, feet, n, [Leaf(n)] + kids);
    if kids == [] {
      SpliceIdentity(f, n, 1);
      assert Run(f, n)[..1] == [Leaf(n)] == [Leaf(n)] + kids;
    }
  }

  /** Inserting a node and moving n below it amounts to wrapping n. */
  lemma {:induction false} WrapFacts<T>(f: Forest<T>, head: TreeNode<T>, feet: TreeNode<T>, n: TreeNode<T>, tmp: TreeNode<T>)
    requires Bounded(f, head, feet) && n in Labels(f) && n != head && n != feet && tmp !in Labels(f)
    ensures var g := Splice(f, n, 0, [Leaf(tmp)]);
      && Reparentable(g, head, feet, tmp, n, 1) && Reparented(g, tmp, n, 1) == Wrapped(f, n, tmp)
      && Right(g, n, 1, null) == PointersOf(f, n).next
  {
    RunLinks(f, null, null, null, n, 0);
    InsertThenWrap(f, n, tmp, null);
    WrapReady(f, head, feet, n, tmp);
  }

  lemma {:induction false} WrapReady<T>(f: Forest<T>, head: TreeNode<T>, feet: TreeNode<T>, n: TreeNode<T>, tmp: TreeNode<T>)
    requires Bounded(f, head, feet) && n in Labels(f) && n != head && n != feet && tmp !in Labels(f)
    requires n in Labels(Splice(f, n, 0, [Leaf(tmp)])) && Run(Splice(f, n, 0, [Leaf(tmp)]), n) == Run(f, n)
    ensures Reparentable(Splice(f, n, 0, [Leaf(tmp)]), head, feet, tmp, n, 1)
  {
    LeafLinks(tmp, null, null, null);
    BoundsOf(f, head, feet);
    SpliceBounded(f, head, feet, n, 0, [Leaf(tmp)]);
    SpliceLabels(f, n, 0, [Leaf(tmp)]);
    GoneLabels(f, n, 1);
    FeetStandsAlone(f, head, feet, n);
  }

  lemma {:induction false} WrapHere<T>(f: Forest<T>, tmp: TreeNode<T>)
    requires f != [] && Distinct(f) && tmp !in Labels(f)
    ensures var g, n := Splice(f, f[0].op, 0, [Leaf(tmp)]), f[0].op;
      && n in Labels(g) && Run(g, n) == f && Distinct(g) && tmp in Labels(g) && tmp !in Gone(g, n, 1)
      && Reparented(g, tmp, n, 1) == Wrapped(f, n, tmp)
  {
    LeafLinks(tmp, null, null, null);
    var n := f[0].op;
    var g := Splice(f, n, 0, [Leaf(tmp)]);
    SpliceLabels(f, n, 0, [Leaf(tmp)]);
    GoneLabels(f, n, 1);
    assert f[0..] == f && g == [Leaf(tmp)] + f && g[1..] == f;
    assert f[..1] == [f[0]];
    var h := Splice(g, n, 1, []);
    assert Splice(f, n, 1, []) == f[1..];
    assert h == [Leaf(tmp)] + f[1..] && h[1..] == f[1..];
    assert [] + [f[0]] == [f[0]];
    assert Below(h, tmp, [f[0]]) == [Node(tmp, [f[0]])] + f[1..];
  }

  lemma {:induction false} InsertThenWrap<T>(f: Forest<T>, n: TreeNode<T>, tmp: TreeNode<T>, b: TreeNode?<T>)
    requires Distinct(f) && n in Labels(f) && tmp !in Labels(f)
    ensures var g := Splice(f, n, 0, [Leaf(tmp)]);
      && Labels(g) == Labels(f) + {tmp} && Distinct(g) && Run(g, n) == Run(f, n)
      && Right(g, n, 1, b) == Right(f, n, 1, b)
      && tmp !in Gone(g, n, 1) && Reparented(g, tmp, n, 1) == Wrapped(f, n, tmp)
  {
    LeafLinks(tmp, null, null, null);
    var g := Splice(f, n, 0, [Leaf(tmp)]);
    SpliceLabels(f, n, 0, [Leaf(tmp)]);
    GoneLabels(f, n, 1);
    if f[0].op == n {
      WrapHere(f, tmp);
    } else if n in Labels(f[0].kids) {
      InsertThenWrap(f[0].kids, n, tmp, null);
      var low := Splice(f[0].kids, n, 0, [Leaf(tmp)]);
      SpliceLabels(low, n, 1, []);
      assert g[1..] == f[1..];
      var h := Splice(g, n, 1, []);
      assert h[0] == Node(f[0].op, Splice(low, n, 1, [])) && h[1..] == f[1..];
    } else {
      InsertThenWrap(f[1..], n, tmp, b);
      var far := Splice(f[1..], n, 0, [Leaf(tmp)]);
      SpliceLabels(far, n, 1, []);
      assert g[1..] == far;
      var h := Splice(g, n, 1, []);
      assert h[0] == f[0] && h[1..] == Splice(far, n, 1, []);
    }
  }
}
