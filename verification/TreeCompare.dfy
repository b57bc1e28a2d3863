/** Structural comparison of two subtrees by two pre-order iterators that step together. */
module TreeCompares {
  import opened Trees
  import opened TreeLinks
  import opened TreeEdits
  import opened LinkedTrees
  import opened TreeCopies
  import opened TreeWalks
  import TreeOrder

  // ---------------------------------------------------------------- what the iterator sees

  /** The data and the number of children of a node in the forest. */
  ghost function Seen<T>(f: Forest<T>, n: TreeNode<T>): (T, nat)
    requires n in Labels(f)
    reads n
  {
    (n.data, |Find(f, n).kids|)
  }

  /** The walk over the values of a forest is what the iterator sees along its nodes. */
  lemma {:induction false} WalkIsSeen<T>(f: Forest<T>)
    requires Distinct(f)
    ensures |TreeOrder.PreOrderAll(Values(f))| == |Order(f)|
    ensures forall i | 0 <= i < |Order(f)| :: Order(f)[i] in Labels(f) && TreeOrder.PreOrderAll(Values(f))[i] == Seen(f, Order(f)[i])
  {
    OrderLabels(f);
    if f != [] {
      WalkIsSeen(f[0].kids);
      WalkIsSeen(f[1..]);
      WalkParts(f);
      forall i | 0 <= i < |Order(f)| ensures TreeOrder.PreOrderAll(Values(f))[i] == Seen(f, Order(f)[i]) {
        var n := |Order(f[0].kids)|;
        if i > n { SeenFurther(f, i - 1 - n); } else if i > 0 { SeenBelowFirst(f, i - 1); }
      }
    }
  }

  lemma {:induction false} WalkParts<T>(f: Forest<T>)
    requires f != []
    ensures TreeOrder.PreOrderAll(Values(f)) == [(f[0].op.data, |f[0].kids|)] + TreeOrder.PreOrderAll(Values(f[0].kids))
                                                + TreeOrder.PreOrderAll(Values(f[1..]))
    ensures Order(f) == [f[0].op] + Order(f[0].kids) + Order(f[1..])
  {
    ValuesLength(f[0].kids);
    var v := Values(f);
    assert v[0] == Node(f[0].op.data, Values(f[0].kids)) && v[1..] == Values(f[1..]);
  }

  lemma {:induction false} SeenBelowFirst<T>(f: Forest<T>, k: nat)
    requires Distinct(f) && f != [] && k < |Order(f[0].kids)|
    ensures var n := Order(f[0].kids)[k]; n in Labels(f[0].kids) && n in Labels(f) && Seen(f, n) == Seen(f[0].kids, n)
  {
    OrderLabels(f[0].kids);
  }

  lemma {:induction false} SeenFurther<T>(f: Forest<T>, k: nat)
    requires Distinct(f) && f != [] && k < |Order(f[1..])|
    ensures var n := Order(f[1..])[k]; n in Labels(f[1..]) && n in Labels(f) && Seen(f, n) == Seen(f[1..], n)
  {
    OrderLabels(f[1..]);
  }

  lemma {:induction false} ValuesLength<T>(f: Forest<T>)
    ensures |Values(f)| == |f|
  {
    if f != [] { ValuesLength(f[1..]); }
  }

  // ---------------------------------------------------------------- inside a subtree

  /** The node behind a node of a subtree, seen from the whole forest and from the subtree. */
  lemma {:induction false} BehindWithin<T>(f: Forest<T>, n: TreeNode<T>, m: TreeNode<T>, d: TreeNode?<T>)
    requires Distinct(f) && n in Labels(f) && m in Labels(Find(f, n).kids)
    ensures m in Labels(f) && Find(f, m) == Find(Find(f, n).kids, m)
    ensures Behind(f, m, d) == Behind(Find(f, n).kids, m, Behind(f, n, d))
  {
    FindBelow(f, n, m);
    FindLabels(f, n);
    if n != f[0].op {
      if n in Labels(f[0].kids) {
        FindLabels(f[0].kids, n);
        BehindWithin(f[0].kids, n, m, Head(f[1..], d));
      } else {
        FindLabels(f[1..], n);
        BehindWithin(f[1..], n, m, d);
      }
    }
  }

  /** The iterator that starts below n passes the nodes below n and then stands behind it. */
  lemma {:induction false} StepWithin<T>(f: Forest<T>, n: TreeNode<T>, i: nat)
    requires Distinct(f) && n in Labels(f) && i < |Order(Find(f, n).kids)|
    ensures var below, e := Order(Find(f, n).kids), Behind(f, n, null);
      && below[i] in Labels(f) && below[i] != e
      && Next(f, below[i], null) == if i + 1 < |below| then below[i + 1] else e
  {
    var kids, e := Find(f, n).kids, Behind(f, n, null);
    var m := Order(kids)[i];
    OrderLabels(kids);
    BehindWithin(f, n, m, null);
    BehindIsOutside(f, n, null);
    FindLabels(f, n);
    var j := NeighboursInOrder(kids, m, null, e);
    OrderDistinct(kids);
  }

  lemma {:induction false} FirstBelow<T>(f: Forest<T>, n: TreeNode<T>)
    requires n in Labels(f)
    ensures var below, e := Order(Find(f, n).kids), Behind(f, n, null);
      Next(f, n, null) == if below == [] then e else below[0]
  {
    FirstInOrder(Find(f, n).kids, Behind(f, n, null));
  }

  // ---------------------------------------------------------------- the comparison

  /** Counts the children along their sibling pointers. */
  method NumberOfChildren<T>(tree: LinkedTree<T>, n: TreeNode<T>) returns (count: nat)
    requires tree.Valid() && n in tree.nodes
    ensures count == |Find(tree.shape, n).kids|
  {
    ghost var kids := Find(tree.shape, n).kids;
    EndsOfKids(tree.shape, null, null, null, n);
    if n.firstChild == null { return 0; }
    var pos := n.firstChild;
    count := 1;
    KidPointer(tree, n, 0);
    while pos.nextSibling != null
      invariant 1 <= count <= |kids| && pos in tree.nodes && pos == kids[count - 1].op
      invariant pos.nextSibling == Head(kids[count..], null)
      decreases |kids| - count
    {
      KidPointer(tree, n, count);
      pos := pos.nextSibling;
      count := count + 1;
    }
  }

  lemma {:induction false} KidPointer<T>(tree: LinkedTree<T>, n: TreeNode<T>, i: nat)
    requires tree.Valid() && n in tree.nodes && i < |Find(tree.shape, n).kids|
    ensures var kids := Find(tree.shape, n).kids;
      kids[i].op in tree.nodes && kids[i].op.nextSibling == Head(kids[i + 1..], null)
  {
    var kids := Find(tree.shape, n).kids;
    FindLabels(tree.shape, n);
    TopLinks(kids, n, null, null, i);
    LinksWithin(tree.shape, null, null, null, n, kids[i].op);
  }

  /** The pointers below n are those of the list of its children. */
  lemma {:induction false} LinksWithin<T>(f: Forest<T>, p: TreeNode?<T>, a: TreeNode?<T>, b: TreeNode?<T>,
                                          n: TreeNode<T>, m: TreeNode<T>)
    requires Distinct(f) && n in Labels(f) && m in Labels(Find(f, n).kids)
    ensures m in Labels(f) && LinkOf(f, p, a, b, m) == LinkOf(Find(f, n).kids, n, null, null, m)
  {
    FindLabels(f, n);
    if n != f[0].op {
      if n in Labels(f[0].kids) {
        FindLabels(f[0].kids, n);
        LinksWithin(f[0].kids, f[0].op, null, null, n, m);
      } else {
        FindLabels(f[1..], n);
        LinksWithin(f[1..], p, f[0].op, b, n, m);
      }
    }
  }

  /** Where the comparison starts and stops: behind the last child, or behind the node itself. */
  method EndOf<T>(tree: LinkedTree<T>, n: TreeNode<T>) returns (end: TreeNode?<T>)
    requires tree.Valid() && n in tree.nodes
    ensures end == Behind(tree.shape, n, null)
  {
    EndsOfKids(tree.shape, null, null, null, n);
    if n.lastChild == null {
      end := Increment(tree, n, true);
    } else {
      LastKidBehind(tree.shape, n);
      end := Increment(tree, n.lastChild, true);
    }
  }

  lemma {:induction false} LastKidBehind<T>(f: Forest<T>, n: TreeNode<T>)
    requires Distinct(f) && n in Labels(f) && Find(f, n).kids != []
    ensures var last := Find(f, n).kids[|Find(f, n).kids| - 1].op;
      last in Labels(f) && Behind(f, last, null) == Behind(f, n, null)
  {
    var kids := Find(f, n).kids;
    FindLabels(f, n);
    TopIsLabel(kids, |kids| - 1);
    BehindWithin(f, n, kids[|kids| - 1].op, null);
    LastBehind(kids, Behind(f, n, null));
  }

  lemma {:induction false} LastBehind<T>(f: Forest<T>, d: TreeNode?<T>)
    requires Distinct(f) && f != []
    ensures f[|f| - 1].op in Labels(f) && Behind(f, f[|f| - 1].op, d) == d
  {
    TopIsLabel(f, |f| - 1);
    if |f| > 1 {
      TopIsLabel(f[1..], |f| - 2);
      LastBehind(f[1..], d);
    }
  }

  /** After i steps the iterator stands at the i-th node below n, or behind n at the end. */
  ghost predicate StandsAt<T>(f: Forest<T>, n: TreeNode<T>, i: nat, pos: TreeNode?<T>)
    requires n in Labels(f)
  {
    var below := Order(Find(f, n).kids);
    i <= |below| && pos == if i < |below| then below[i] else Behind(f, n, null)
  }

  /** What the walk below n sees. */
  ghost function Walked<T>(f: Forest<T>, n: TreeNode<T>): seq<(T, nat)>
    requires n in Labels(f)
    reads Labels(Find(f, n).kids)
  {
    TreeOrder.PreOrderAll(Values(Find(f, n).kids))
  }

  lemma {:induction false} SeenBelow<T>(f: Forest<T>, n: TreeNode<T>, i: nat, pos: TreeNode?<T>)
    requires Distinct(f) && n in Labels(f) && StandsAt(f, n, i, pos)
    ensures |Walked(f, n)| == |Order(Find(f, n).kids)|
    ensures i < |Walked(f, n)| ==> pos != null && pos in Labels(f) && pos in Labels(Find(f, n).kids) && Walked(f, n)[i] == Seen(f, pos)
    ensures i < |Walked(f, n)| <==> pos != Behind(f, n, null)
  {
    var kids := Find(f, n).kids;
    FindLabels(f, n);
    WalkIsSeen(kids);
    if i < |Order(kids)| {
      StepWithin(f, n, i);
      BehindWithin(f, n, Order(kids)[i], null);
    }
  }

  // ---------------------------------------------------------------- the loop

  /** Walks that agree until one of them ends come from equal lists of equally many trees. */
  lemma {:induction false} AgreedWalksAreEqual<T>(xs: seq<Tree<T>>, ys: seq<Tree<T>>, i: nat)
    requires |xs| == |ys|
    requires var v, w := TreeOrder.PreOrderAll(xs), TreeOrder.PreOrderAll(ys);
             i <= |v| && i <= |w| && v[..i] == w[..i] && (i == |v| || i == |w|)
    ensures xs == ys && i == |TreeOrder.PreOrderAll(xs)|
  {
    var v: seq<(T, nat)>, w: seq<(T, nat)> := TreeOrder.PreOrderAll(xs), TreeOrder.PreOrderAll(ys);
    forall k | 0 <= k < |v| && k < |w| ensures v[k] == w[k] {
      assert (v[..i])[k] == (w[..i])[k];
    }
    TreeOrder.SameWalkIsCommonPrefix(v, w);
    assert v + [] == v && w + [] == w;
    TreeOrder.WalkDetermines(xs, ys, [], []);
  }

  predicate IsValid<T>(tree: LinkedTree<T>, pos: TreeNode?<T>) {
    pos != null && pos != tree.feet && pos != tree.head
  }

  /** Nothing below a node is a sentinel. */
  lemma {:induction false} BelowIsValid<T>(tree: LinkedTree<T>, n: TreeNode<T>, pos: TreeNode<T>)
    requires tree.Valid()
    requires n in tree.nodes && pos in Labels(Find(tree.shape, n).kids)
    ensures IsValid(tree, pos)
  {
    FindLabels(tree.shape, n);
    TopLabels(tree.shape);
    SentinelsBelowNone(tree.shape, n, 0);
    SentinelsBelowNone(tree.shape, n, |tree.shape| - 1);
    TopIsLabel(tree.shape, 0);
    TopIsLabel(tree.shape, |tree.shape| - 1);
  }

  /** What stands below a node of either tree passes the test of the first. */
  lemma {:induction false} ValidElsewhere<T>(tree: LinkedTree<T>, other: LinkedTree<T>, n: TreeNode<T>, pos: TreeNode<T>)
    requires SameOrApart(tree, other) && tree.Valid() && other.Valid()
    requires n in other.nodes && pos in Labels(Find(other.shape, n).kids)
    ensures IsValid(tree, pos)
  {
    BelowIsValid(other, n, pos);
    FindLabels(other.shape, n);
    BoundsOf(tree.shape, tree.head, tree.feet);
  }

  /** A root is not below any node. */
  lemma {:induction false} SentinelsBelowNone<T>(f: Forest<T>, n: TreeNode<T>, i: nat)
    requires Distinct(f) && n in Labels(f) && i < |f|
    ensures f[i].op !in Labels(Find(f, n).kids)
  {
    FindLabels(f, n);
    TopIsLabel(f, i);
    if n == f[0].op {
      if i > 0 { TopIsLabel(f[1..], i - 1); }
    } else if n in Labels(f[0].kids) {
      FindLabels(f[0].kids, n);
      if i > 0 { TopIsLabel(f[1..], i - 1); }
    } else {
      FindLabels(f[1..], n);
      if i > 0 { SentinelsBelowNone(f[1..], n, i - 1); }
    }
  }

  /** The trees of data below n. */
  ghost function Held<T>(tree: LinkedTree<T>, n: TreeNode<T>): seq<Tree<T>>
    requires tree.Valid() && n in tree.nodes
    reads tree, tree.nodes
  {
    FindLabels(tree.shape, n);
    Values(Find(tree.shape, n).kids)
  }

  /** After i steps both iterators stand abreast below a and below b, where xs and ys
      hang, and what they have seen is the same. */
  ghost predicate Abreast<T>(f: Forest<T>, g: Forest<T>, a: TreeNode<T>, b: TreeNode<T>, i: nat,
                             one: TreeNode?<T>, three: TreeNode?<T>, xs: seq<Tree<T>>, ys: seq<Tree<T>>)
    requires a in Labels(f) && b in Labels(g)
  {
    var v, w := TreeOrder.PreOrderAll(xs), TreeOrder.PreOrderAll(ys);
    && StandsAt(f, a, i, one) && StandsAt(g, b, i, three)
    && i <= |v| && i <= |w| && v[..i] == w[..i] && |xs| == |ys|
  }

  /** Unless the first iterator is at its end, both stand below their nodes. */
  lemma {:induction false} BothBelow<T>(f: Forest<T>, g: Forest<T>, a: TreeNode<T>, b: TreeNode<T>, i: nat,
                                        one: TreeNode?<T>, three: TreeNode?<T>, xs: seq<Tree<T>>, ys: seq<Tree<T>>)
    requires Distinct(f) && Distinct(g) && a in Labels(f) && b in Labels(g) && Abreast(f, g, a, b, i, one, three, xs, ys)
    requires xs == Values(Find(f, a).kids) && ys == Values(Find(g, b).kids)
    ensures var v, w := TreeOrder.PreOrderAll(xs), TreeOrder.PreOrderAll(ys);
            if one == Behind(f, a, null) then xs == ys
            else
              && i < |v| && i < |w| && one != null && three != null
              && one in Labels(f) && i < |Order(Find(f, a).kids)| && v[i] == Seen(f, one)
              && three in Labels(g) && three in Labels(Find(g, b).kids) && i < |Order(Find(g, b).kids)| && w[i] == Seen(g, three)
  {
    SeenBelow(f, a, i, one);
    SeenBelow(g, b, i, three);
    if i == |Walked(f, a)| || i == |Walked(g, b)| { AgreedWalksAreEqual(xs, ys, i); }
  }

  /** One step of the iterator below n, which changes nothing here or at m. */
  method Advance<T>(tree: LinkedTree<T>, pos: TreeNode<T>, ghost n: TreeNode<T>, ghost i: nat,
                    ghost other: LinkedTree<T>, ghost m: TreeNode<T>, ghost xs: seq<Tree<T>>, ghost ys: seq<Tree<T>>)
    returns (next: TreeNode?<T>)
    requires tree.Valid() && n in tree.nodes && i < |Order(Find(tree.shape, n).kids)| && StandsAt(tree.shape, n, i, pos)
    requires other.Valid() && m in other.nodes && xs == Held(tree, n) && ys == Held(other, m)
    ensures StandsAt(tree.shape, n, i + 1, next) && xs == Held(tree, n) && ys == Held(other, m)
  {
    StepWithin(tree.shape, n, i);
    next := Increment(tree, pos, false);
  }

  /** Compares two nodes and, if they are alike, steps on from both. */
  method StepBoth<T(==)>(tree: LinkedTree<T>, other: LinkedTree<T>, one: TreeNode<T>, three: TreeNode<T>,
                         ghost a: TreeNode<T>, ghost b: TreeNode<T>, ghost i: nat, ghost xs: seq<Tree<T>>, ghost ys: seq<Tree<T>>)
    returns (same: bool, one': TreeNode?<T>, three': TreeNode?<T>)
    requires tree.Valid() && other.Valid() && a in tree.nodes && b in other.nodes && Abreast(tree.shape, other.shape, a, b, i, one, three, xs, ys)
    requires xs == Held(tree, a) && ys == Held(other, b)
    requires one != Behind(tree.shape, a, null)
    ensures if same then Abreast(tree.shape, other.shape, a, b, i + 1, one', three', xs, ys) else xs != ys
    ensures xs == Held(tree, a) && ys == Held(other, b)
  {
    one', three' := one, three;
    BothBelow(tree.shape, other.shape, a, b, i, one, three, xs, ys);
    same := SameNode(tree, other, one, three, a, b, xs, ys);
    if same {
      one' := Advance(tree, one, a, i, other, b, xs, ys);
      three' := Advance(other, three, b, i, tree, a, ys, xs);
      NextAbreast(tree.shape, other.shape, a, b, i, one, three, one', three', xs, ys);
    }
  }

  lemma {:induction false} NextAbreast<T>(f: Forest<T>, g: Forest<T>, a: TreeNode<T>, b: TreeNode<T>, i: nat,
                                          one: TreeNode?<T>, three: TreeNode?<T>, one': TreeNode?<T>, three': TreeNode?<T>,
                                          xs: seq<Tree<T>>, ys: seq<Tree<T>>)
    requires a in Labels(f) && b in Labels(g) && Abreast(f, g, a, b, i, one, three, xs, ys)
    requires StandsAt(f, a, i + 1, one') && StandsAt(g, b, i + 1, three')
    requires var v, w := TreeOrder.PreOrderAll(xs), TreeOrder.PreOrderAll(ys); i < |v| && i < |w| && v[i] == w[i]
    ensures Abreast(f, g, a, b, i + 1, one', three', xs, ys)
  {
    PrefixGrows(TreeOrder.PreOrderAll(xs), TreeOrder.PreOrderAll(ys), i);
  }

  lemma {:induction false} PrefixGrows<E>(v: seq<E>, w: seq<E>, i: nat)
    requires i < |v| && i < |w| && v[..i] == w[..i] && v[i] == w[i]
    ensures v[..i + 1] == w[..i + 1]
  {
    assert v[..i + 1] == v[..i] + [v[i]] && w[..i + 1] == w[..i] + [w[i]];
  }

  /** Steps both iterators until the first is at its end or the second off its tree. */
  method Equal<T(==)>(tree: LinkedTree<T>, other: LinkedTree<T>, first: TreeNode?<T>, stop: TreeNode?<T>, second: TreeNode?<T>,
                      ghost a: TreeNode<T>, ghost b: TreeNode<T>, ghost xs: seq<Tree<T>>, ghost ys: seq<Tree<T>>) returns (r: bool)
    requires SameOrApart(tree, other) && tree.Valid() && other.Valid() && a in tree.nodes && b in other.nodes && stop == Behind(tree.shape, a, null)
    requires xs == Held(tree, a) && ys == Held(other, b)
    requires Abreast(tree.shape, other.shape, a, b, 0, first, second, xs, ys)
    ensures r <==> xs == ys
  {
    var one, three := first, second;
    ghost var i := 0;
    StaysOnTree(tree, other, a, b, i, one, three, xs, ys);
    while one != stop && IsValid(tree, three)
      invariant xs == Held(tree, a) && ys == Held(other, b)
      invariant Abreast(tree.shape, other.shape, a, b, i, one, three, xs, ys)
      invariant if one == stop then xs == ys else one != null && IsValid(tree, three)
      decreases |Order(Find(tree.shape, a).kids)| - i
    {
      var same: bool;
      same, one, three := StepBoth(tree, other, one, three, a, b, i, xs, ys);
      if !same { return false; }
      i := i + 1;
      StaysOnTree(tree, other, a, b, i, one, three, xs, ys);
    }
    r := true;
  }

  lemma {:induction false} StaysOnTree<T>(tree: LinkedTree<T>, other: LinkedTree<T>, a: TreeNode<T>, b: TreeNode<T>, i: nat,
                                          one: TreeNode?<T>, three: TreeNode?<T>, xs: seq<Tree<T>>, ys: seq<Tree<T>>)
    requires SameOrApart(tree, other) && tree.Valid() && other.Valid() && a in tree.nodes && b in other.nodes && Abreast(tree.shape, other.shape, a, b, i, one, three, xs, ys)
    requires xs == Held(tree, a) && ys == Held(other, b)
    ensures if one == Behind(tree.shape, a, null) then xs == ys else one != null && IsValid(tree, three)
  {
    BothBelow(tree.shape, other.shape, a, b, i, one, three, xs, ys);
    if one != Behind(tree.shape, a, null) { ValidElsewhere(tree, other, b, three); }
  }

  /** Compares the data and the number of children of two nodes, and changes nothing
      below the nodes m and n. */
  method SameNode<T(==)>(tree: LinkedTree<T>, other: LinkedTree<T>, a: TreeNode<T>, b: TreeNode<T>,
                         ghost m: TreeNode<T>, ghost n: TreeNode<T>, ghost xs: seq<Tree<T>>, ghost ys: seq<Tree<T>>) returns (same: bool)
    requires tree.Valid() && other.Valid() && a in tree.nodes && b in other.nodes
    requires m in tree.nodes && n in other.nodes && xs == Held(tree, m) && ys == Held(other, n)
    ensures same <==> Seen(tree.shape, a) == Seen(other.shape, b)
    ensures xs == Held(tree, m) && ys == Held(other, n)
  {
    same := LikeNode(tree, other, a, b);
  }

  method LikeNode<T(==)>(tree: LinkedTree<T>, other: LinkedTree<T>, a: TreeNode<T>, b: TreeNode<T>) returns (same: bool)
    requires tree.Valid() && other.Valid() && a in tree.nodes && b in other.nodes
    ensures same <==> Seen(tree.shape, a) == Seen(other.shape, b)
  {
    if a.data != b.data { return false; }
    var m := NumberOfChildren(tree, a);
    var n := NumberOfChildren(other, b);
    same := m == n;
  }

  /** Where an iterator starts below n: at the first child, or behind n. */
  method BeginOf<T>(tree: LinkedTree<T>, n: TreeNode<T>) returns (begin: TreeNode?<T>)
    requires tree.Valid() && n in tree.nodes
    ensures StandsAt(tree.shape, n, 0, begin)
  {
    EndsOfKids(tree.shape, null, null, null, n);
    FirstInOrder(Find(tree.shape, n).kids, Behind(tree.shape, n, null));
    if n.firstChild != null {
      begin := n.firstChild;
    } else {
      begin := EndOf(tree, n);
    }
  }

  /** The tree of data at n. */
  ghost function ValueAt<T>(tree: LinkedTree<T>, n: TreeNode<T>): Tree<T>
    requires tree.Valid() && n in tree.nodes
    reads tree, tree.nodes
  {
    Node(n.data, Held(tree, n))
  }

  lemma {:induction false} ValueAtIsValue<T>(tree: LinkedTree<T>, n: TreeNode<T>)
    requires tree.Valid() && n in tree.nodes
    ensures Values([Find(tree.shape, n)]) == [ValueAt(tree, n)] && |Held(tree, n)| == |Find(tree.shape, n).kids|
  {
    var t: Tree<TreeNode<T>> := Find(tree.shape, n);
    assert [t][1..] == [];
    ValuesLength(t.kids);
  }

  /** Whether the subtrees at a and b, of one tree or of two, hold the same tree of data. */
  method EqualSubtree<T(==)>(tree: LinkedTree<T>, other: LinkedTree<T>, a: TreeNode<T>, b: TreeNode<T>) returns (r: bool)
    requires SameOrApart(tree, other) && tree.Valid() && other.Valid() && a in tree.nodes && b in other.nodes
    ensures r <==> ValueAt(tree, a) == ValueAt(other, b)
  {
    ghost var xs, ys := Held(tree, a), Held(other, b);
    ValueAtIsValue(tree, a);
    ValueAtIsValue(other, b);
    if a == b { return true; }
    r := SameNode(tree, other, a, b, a, b, xs, ys);
    if r { r := EqualBelow(tree, other, a, b, xs, ys); }
  }

  /** Sets the iterators to where the children begin and end. */
  method EqualBelow<T(==)>(tree: LinkedTree<T>, other: LinkedTree<T>, a: TreeNode<T>, b: TreeNode<T>,
                           ghost xs: seq<Tree<T>>, ghost ys: seq<Tree<T>>) returns (r: bool)
    requires SameOrApart(tree, other) && tree.Valid() && other.Valid() && a in tree.nodes && b in other.nodes && |xs| == |ys|
    requires xs == Held(tree, a) && ys == Held(other, b)
    ensures r <==> xs == ys
  {
    var first := BeginOf(tree, a);
    var stop := EndOf(tree, a);
    var second := BeginOf(other, b);
    r := Equal(tree, other, first, stop, second, a, b, xs, ys);
  }
}
