/** The structural comparisons of the tree container: the lexicographic and the
    size-first order, the pre-order walk, and the walk that decides equality. */
module TreeOrder {
  import opened Trees

  // ---------------------------------------------------------------- order

  /** less is a strict total order on the labels. */
  ghost predicate StrictTotal<T(!new)>(less: (T, T) -> bool) {
    && (forall x :: !less(x, x))
    && (forall x, y :: less(x, y) || less(y, x) || x == y)
    && (forall x, y, z :: less(x, y) && less(y, z) ==> less(x, z))
  }

  /** Positive when a comes first, negative when b does. */
  function Cmp<T>(less: (T, T) -> bool, a: Tree<T>, b: Tree<T>): int {
    if less(a.op, b.op) then 1
    else if less(b.op, a.op) then -1
    else CmpKids(less, a.kids, b.kids)
  }

  function CmpKids<T>(less: (T, T) -> bool, xs: seq<Tree<T>>, ys: seq<Tree<T>>): int {
    if xs == [] then
      if ys == [] then 0 else 1
    else if ys == [] then
      -1
    else
      var c := Cmp(less, xs[0], ys[0]);
      if c != 0 then c else CmpKids(less, xs[1..], ys[1..])
  }

  predicate Before<T>(less: (T, T) -> bool, a: Tree<T>, b: Tree<T>) {
    Cmp(less, a, b) > 0
  }

  /** Smaller trees first, trees of one size in lexicographic order. */
  predicate SizeBefore<T>(less: (T, T) -> bool, a: Tree<T>, b: Tree<T>) {
    if Size(a) == Size(b) then Cmp(less, a, b) > 0 else Size(a) < Size(b)
  }

  lemma {:induction false} CmpOpposite<T(!new)>(less: (T, T) -> bool, a: Tree<T>, b: Tree<T>)
    requires StrictTotal(less)
    ensures Cmp(less, a, b) == -Cmp(less, b, a)
    ensures Cmp(less, a, b) == 0 <==> a == b
    decreases a
  {
    CmpKidsOpposite(less, a.kids, b.kids);
  }

  lemma {:induction false} CmpKidsOpposite<T(!new)>(less: (T, T) -> bool, xs: seq<Tree<T>>, ys: seq<Tree<T>>)
    requires StrictTotal(less)
    ensures CmpKids(less, xs, ys) == -CmpKids(less, ys, xs)
    ensures CmpKids(less, xs, ys) == 0 <==> xs == ys
    decreases xs
  {
    if xs != [] && ys != [] {
      CmpOpposite(less, xs[0], ys[0]);
      CmpKidsOpposite(less, xs[1..], ys[1..]);
      assert xs == [xs[0]] + xs[1..] && ys == [ys[0]] + ys[1..];
    }
  }

  lemma {:induction false} CmpTransitive<T(!new)>(less: (T, T) -> bool, a: Tree<T>, b: Tree<T>, c: Tree<T>)
    requires StrictTotal(less)
    requires Cmp(less, a, b) > 0 && Cmp(less, b, c) > 0
    ensures Cmp(less, a, c) > 0
    decreases a
  {
    if a.op == b.op == c.op {
      CmpKidsTransitive(less, a.kids, b.kids, c.kids);
    }
  }

  lemma {:induction false} CmpKidsTransitive<T(!new)>(less: (T, T) -> bool, xs: seq<Tree<T>>, ys: seq<Tree<T>>, zs: seq<Tree<T>>)
    requires StrictTotal(less)
    requires CmpKids(less, xs, ys) > 0 && CmpKids(less, ys, zs) > 0
    ensures CmpKids(less, xs, zs) > 0
    decreases xs
  {
    if xs != [] && ys != [] && zs != [] {
      CmpOpposite(less, xs[0], ys[0]);
      CmpOpposite(less, ys[0], zs[0]);
      if xs[0] == ys[0] && ys[0] == zs[0] {
        CmpKidsTransitive(less, xs[1..], ys[1..], zs[1..]);
      } else if xs[0] != ys[0] && ys[0] != zs[0] {
        CmpTransitive(less, xs[0], ys[0], zs[0]);
      }
    }
  }

  /** Both orders are strict, total and consistent with equality of trees. */
  lemma {:induction false} TreeOrdersAreStrictTotal<T(!new)>(less: (T, T) -> bool)
    requires StrictTotal(less)
    ensures StrictTotal((a: Tree<T>, b: Tree<T>) => Before(less, a, b))
    ensures StrictTotal((a: Tree<T>, b: Tree<T>) => SizeBefore(less, a, b))
  {
    forall a: Tree<T>, b: Tree<T>
      ensures Cmp(less, a, b) == -Cmp(less, b, a) && (Cmp(less, a, b) == 0 <==> a == b)
    {
      CmpOpposite(less, a, b);
    }
    forall a: Tree<T>, b: Tree<T>, c: Tree<T> | Cmp(less, a, b) > 0 && Cmp(less, b, c) > 0
      ensures Cmp(less, a, c) > 0
    {
      CmpTransitive(less, a, b, c);
    }
    var before := (a: Tree<T>, b: Tree<T>) => Before(less, a, b);
    var sizeBefore := (a: Tree<T>, b: Tree<T>) => SizeBefore(less, a, b);
    assert forall x :: before(x, x) == (Cmp(less, x, x) > 0);
  }

  // ---------------------------------------------------------------- pre-order walk

  /** What a pre-order walk sees at each node: the label and the number of children. */
  function PreOrder<T>(t: Tree<T>): (r: seq<(T, nat)>)
    ensures |r| == Size(t)
  {
    [(t.op, |t.kids|)] + PreOrderAll(t.kids)
  }

  function PreOrderAll<T>(ts: seq<Tree<T>>): (r: seq<(T, nat)>)
    ensures |r| == SizeAll(ts)
  {
    if ts == [] then [] else PreOrder(ts[0]) + PreOrderAll(ts[1..])
  }

  /** The comparison loop: `one` is the rest of the walk below the first node,
      `three` the rest of the walk that starts below the second one and may run on
      past its subtree.  It stops when either walk ends. */
  predicate SameWalk<T(==)>(one: seq<(T, nat)>, three: seq<(T, nat)>) {
    if one == [] || three == [] then true
    else one[0] == three[0] && SameWalk(one[1..], three[1..])
  }

  /** equal_subtree: `after` is whatever the second tree's walk meets behind the subtree. */
  predicate EqualSubtree<T(==)>(a: Tree<T>, b: Tree<T>, after: seq<(T, nat)>) {
    a.op == b.op && |a.kids| == |b.kids| && SameWalk(PreOrderAll(a.kids), PreOrderAll(b.kids) + after)
  }

  lemma {:induction false} SameWalkIsCommonPrefix<T>(one: seq<(T, nat)>, three: seq<(T, nat)>)
    ensures SameWalk(one, three) <==> forall i | 0 <= i < |one| && i < |three| :: one[i] == three[i]
  {
    if one != [] && three != [] {
      SameWalkIsCommonPrefix(one[1..], three[1..]);
      assert forall i | 0 <= i < |one| - 1 && i < |three| - 1 :: one[1..][i] == one[i + 1] && three[1..][i] == three[i + 1];
      if SameWalk(one, three) {
        forall i | 0 <= i < |one| && i < |three| ensures one[i] == three[i] {
          if i > 0 { assert one[1..][i - 1] == three[1..][i - 1]; }
        }
      }
    }
  }

  lemma {:induction false} UnfoldWalk<T>(xs: seq<Tree<T>>, p: seq<(T, nat)>)
    requires xs != []
    ensures var walk := PreOrderAll(xs) + p;
            walk != [] && walk[0] == (xs[0].op, |xs[0].kids|)
            && walk[1..] == PreOrderAll(xs[0].kids) + (PreOrderAll(xs[1..]) + p)
  {
    var head, body, tail := [(xs[0].op, |xs[0].kids|)], PreOrderAll(xs[0].kids), PreOrderAll(xs[1..]);
    assert PreOrderAll(xs) == (head + body) + tail;
    Reassociate(head, body, tail, p);
  }

  lemma {:induction false} Reassociate<E>(h: seq<E>, b: seq<E>, t: seq<E>, p: seq<E>)
    requires |h| == 1
    ensures ((h + b) + t + p)[0] == h[0] && ((h + b) + t + p)[1..] == b + (t + p)
  {
  }

  /** Two walks that agree as far as both go come from the same list of trees, provided the
      lists are equally long: the child counts say where each subtree ends. */
  lemma {:induction false} WalkDetermines<T>(xs: seq<Tree<T>>, ys: seq<Tree<T>>, p: seq<(T, nat)>, q: seq<(T, nat)>)
    requires |xs| == |ys|
    requires SameWalk(PreOrderAll(xs) + p, PreOrderAll(ys) + q)
    ensures xs == ys && SameWalk(p, q)
    decreases SizeAll(xs)
  {
    if xs == [] {
      assert PreOrderAll(xs) + p == p && PreOrderAll(ys) + q == q;
    } else {
      var x, y := xs[0], ys[0];
      var px, py := PreOrderAll(xs[1..]) + p, PreOrderAll(ys[1..]) + q;
      UnfoldWalk(xs, p);
      UnfoldWalk(ys, q);
      NextOfWalk(PreOrderAll(xs) + p, PreOrderAll(ys) + q);
      WalkDetermines(x.kids, y.kids, px, py);
      WalkDetermines(xs[1..], ys[1..], p, q);
      FirstAndRest(xs, ys);
    }
  }

  lemma {:induction false} NextOfWalk<T>(v: seq<(T, nat)>, w: seq<(T, nat)>)
    requires SameWalk(v, w) && v != [] && w != []
    ensures v[0] == w[0] && SameWalk(v[1..], w[1..])
  {
  }

  lemma {:induction false} FirstAndRest<T>(xs: seq<Tree<T>>, ys: seq<Tree<T>>)
    requires xs != [] && ys != [] && xs[0].op == ys[0].op && xs[0].kids == ys[0].kids && xs[1..] == ys[1..]
    ensures xs == ys
  {
    assert xs == [xs[0]] + xs[1..] && ys == [ys[0]] + ys[1..];
  }

  lemma {:induction false} SameWalkReflexive<T>(one: seq<(T, nat)>, after: seq<(T, nat)>)
    ensures SameWalk(one, one + after)
  {
    if one != [] {
      assert (one + after)[1..] == one[1..] + after;
      SameWalkReflexive(one[1..], after);
    }
  }

  /** The loop decides structural equality, wherever the second subtree sits in its tree. */
  lemma {:induction false} EqualSubtreeDecidesEquality<T>(a: Tree<T>, b: Tree<T>, after: seq<(T, nat)>)
    ensures EqualSubtree(a, b, after) <==> a == b
  {
    if EqualSubtree(a, b, after) {
      assert PreOrderAll(a.kids) + [] == PreOrderAll(a.kids);
      WalkDetermines(a.kids, b.kids, [], after);
    }
    if a == b {
      SameWalkReflexive(PreOrderAll(a.kids), after);
    }
  }

  lemma {:induction false} PreOrderInjective<T>(a: Tree<T>, b: Tree<T>)
    requires PreOrder(a) == PreOrder(b)
    ensures a == b
  {
    assert PreOrder(a)[0] == PreOrder(b)[0];
    assert PreOrderAll(a.kids) == PreOrder(a)[1..] && PreOrderAll(b.kids) == PreOrder(b)[1..];
    SameWalkReflexive(PreOrderAll(a.kids), []);
    EqualSubtreeDecidesEquality(a, b, []);
  }

  // ---------------------------------------------------------------- which tree comes first

  /** v and w agree before i, and the labels at i differ. */
  predicate FirstDifference<T(==)>(v: seq<(T, nat)>, w: seq<(T, nat)>, i: nat) {
    i < |v| && i < |w| && (forall j | 0 <= j < i :: v[j] == w[j]) && v[i].0 != w[i].0
  }

  lemma {:induction false} DifferenceBehind<T>(v: seq<(T, nat)>, w: seq<(T, nat)>, h: seq<(T, nat)>, i: nat)
    requires FirstDifference(h + v, h + w, i) && |h| <= i
    ensures FirstDifference(v, w, i - |h|) && (h + v)[i] == v[i - |h|] && (h + w)[i] == w[i - |h|]
  {
    forall j | 0 <= j < i - |h| ensures v[j] == w[j] { assert (h + v)[|h| + j] == (h + w)[|h| + j]; }
  }

  lemma {:induction false} DifferenceBefore<T>(v: seq<(T, nat)>, w: seq<(T, nat)>, p: seq<(T, nat)>, q: seq<(T, nat)>, i: nat)
    requires FirstDifference(v + p, w + q, i)
    ensures i < |v| && i < |w| ==> FirstDifference(v, w, i) && (v + p)[i] == v[i] && (w + q)[i] == w[i]
    ensures i >= |v| || i >= |w| ==> SameWalk(v, w)
  {
    forall j | 0 <= j < i && j < |v| && j < |w| ensures v[j] == w[j] { assert (v + p)[j] == (w + q)[j]; }
    SameWalkIsCommonPrefix(v, w);
  }

  /** Where the walks of two trees come to different labels for the first time, the labels
      there decide which tree comes first. */
  lemma {:induction false} FirstDifferenceDecides<T(!new)>(less: (T, T) -> bool, a: Tree<T>, b: Tree<T>, i: nat)
    requires StrictTotal(less) && FirstDifference(PreOrder(a), PreOrder(b), i)
    ensures Before(less, a, b) <==> less(PreOrder(a)[i].0, PreOrder(b)[i].0)
    ensures Size(a) == Size(b) ==> (SizeBefore(less, a, b) <==> less(PreOrder(a)[i].0, PreOrder(b)[i].0))
    decreases a, 1
  {
    if i > 0 {
      assert PreOrder(a)[0] == PreOrder(b)[0];
      DifferenceBehind(PreOrderAll(a.kids), PreOrderAll(b.kids), [(a.op, |a.kids|)], i);
      FirstDifferenceOfAllDecides(less, a.kids, b.kids, i - 1);
    }
  }

  lemma {:induction false} FirstDifferenceOfAllDecides<T(!new)>(less: (T, T) -> bool, xs: seq<Tree<T>>, ys: seq<Tree<T>>, i: nat)
    requires StrictTotal(less) && |xs| == |ys| && FirstDifference(PreOrderAll(xs), PreOrderAll(ys), i)
    ensures CmpKids(less, xs, ys) > 0 <==> less(PreOrderAll(xs)[i].0, PreOrderAll(ys)[i].0)
    decreases xs, 2
  {
    var v, w := PreOrder(xs[0]), PreOrder(ys[0]);
    DifferenceBefore(v, w, PreOrderAll(xs[1..]), PreOrderAll(ys[1..]), i);
    CmpOpposite(less, xs[0], ys[0]);
    if i < |v| && i < |w| {
      FirstDifferenceDecides(less, xs[0], ys[0], i);
      assert xs[0] != ys[0];
    } else {
      SameWalkTellsTree(xs[0], ys[0]);
      DifferenceBehind(PreOrderAll(xs[1..]), PreOrderAll(ys[1..]), v, i);
      FirstDifferenceOfAllDecides(less, xs[1..], ys[1..], i - |v|);
    }
  }

  lemma {:induction false} SameWalkTellsTree<T>(a: Tree<T>, b: Tree<T>)
    requires SameWalk(PreOrder(a), PreOrder(b))
    ensures a == b
  {
    assert PreOrder(a)[1..] == PreOrderAll(a.kids) && PreOrder(b)[1..] == PreOrderAll(b.kids);
    assert PreOrderAll(b.kids) + [] == PreOrderAll(b.kids);
    EqualSubtreeDecidesEquality(a, b, []);
  }

  /** Of two nodes with one label, the one whose children are a proper beginning of the
      other's comes first. */
  lemma {:induction false} FewerChildrenFirst<T(!new)>(less: (T, T) -> bool, op: T, kids: seq<Tree<T>>, more: seq<Tree<T>>)
    requires StrictTotal(less) && more != []
    ensures Before(less, Node(op, kids), Node(op, kids + more))
  {
    if kids == [] {
      assert kids + more == more;
    } else {
      assert (kids + more)[1..] == kids[1..] + more;
      CmpOpposite(less, kids[0], kids[0]);
      FewerChildrenFirst(less, op, kids[1..], more);
    }
  }

  /** a is a proper subtree of b. */
  predicate Inside<T(==)>(a: Tree<T>, b: Tree<T>)
    decreases b
  {
    exists i | 0 <= i < |b.kids| :: a == b.kids[i] || Inside(a, b.kids[i])
  }

  /** In the size-first order a tree comes behind all its proper subtrees. */
  lemma {:induction false} SubtreesFirst<T>(less: (T, T) -> bool, a: Tree<T>, b: Tree<T>)
    requires Inside(a, b)
    ensures SizeBefore(less, a, b) && !SizeBefore(less, b, a)
    decreases b
  {
    var i :| 0 <= i < |b.kids| && (a == b.kids[i] || Inside(a, b.kids[i]));
    if a != b.kids[i] { SubtreesFirst(less, a, b.kids[i]); }
    KidIsSmaller(b.kids, i);
  }

  lemma {:induction false} KidIsSmaller<T>(ts: seq<Tree<T>>, i: nat)
    requires i < |ts|
    ensures Size(ts[i]) <= SizeAll(ts)
  {
    if i > 0 { KidIsSmaller(ts[1..], i - 1); }
  }
}
