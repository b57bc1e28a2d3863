/** What the reduction of unions preserves, and the intersection of two types. */
module TypeIntersection {
  import opened Trees
  import opened TypeTrees
  import opened TypeReduce
  import TreeOrder

  // ---------------------------------------------------------------- reduction at rest

  /** A normal tree is a fixed point of the reduction. */
  lemma {:induction false} ReduceNormal(t: TypeTree, args: seq<TypeTree>)
    requires Normal(t) && ArgTypes(args)
    ensures Reducible(t) && Reduce(t, args) == t && ReducePreOrder(t, args) == t
  {
    forall i | 0 <= i < |t.kids|
      ensures Reducible(t.kids[i]) && Reduce(t.kids[i], args) == t.kids[i] && ReducePreOrder(t.kids[i], args) == t.kids[i]
    {
      ReduceNormal(t.kids[i], args);
    }
    ReduceNormalTop(t, args);
    assert ReducePreOrderAll(t.kids, args) == t.kids;
  }

  lemma {:induction false} ReduceNormalTop(t: TypeTree, args: seq<TypeTree>)
    requires Normal(t) && ArgTypes(args)
    requires forall i | 0 <= i < |t.kids| ::
               && Reducible(t.kids[i]) && Reduce(t.kids[i], args) == t.kids[i]
               && ReducePreOrder(t.kids[i], args) == t.kids[i]
    ensures Reducible(t) && Reduce(t, args) == t
  {
    assert ReduceAll(t.kids, args) == t.kids;
    if t.op.Union? { PruneIncomparable(t.kids, 0); }
  }

  lemma {:induction false} ReduceNormalAll(ts: seq<TypeTree>, args: seq<TypeTree>)
    requires ArgTypes(args) && forall i | 0 <= i < |ts| :: Normal(ts[i])
    ensures ReducibleAll(ts) && ReduceAll(ts, args) == ts
  {
    forall i | 0 <= i < |ts| ensures Reducible(ts[i]) && Reduce(ts[i], args) == ts[i] {
      ReduceNormal(ts[i], args);
    }
  }

  lemma {:induction false} PruneIncomparable(ts: seq<TypeTree>, i: nat)
    requires ShapedAll(ts) && Incomparable(ts)
    ensures Prune(ts, i) == ts
    decreases |ts| - i
  {
    if i < |ts| {
      PruneIncomparable(ts, i + 1);
    }
  }

  /** After the pruning loop no member inherits from another one. */
  lemma {:induction false} PruneLeavesIncomparable(ts: seq<TypeTree>, i: nat)
    requires ShapedAll(ts)
    requires forall k, j | 0 <= k < i && k < |ts| && 0 <= j < |ts| && j != k :: !Inherit(ts[k], ts[j])
    ensures ShapedAll(Prune(ts, i)) && Incomparable(Prune(ts, i))
    decreases |ts| - i
  {
    if i >= |ts| {
    } else if Covered(ts, i) {
      PruneLeavesIncomparable(Without(ts, i), i);
    } else {
      PruneLeavesIncomparable(ts, i + 1);
    }
  }

  /** Inheritance chains from x through the members of the list. */
  predicate ChainsFrom(x: TypeTree, ts: seq<TypeTree>)
    requires Shaped(x) && ShapedAll(ts)
  {
    forall j, k | 0 <= j < |ts| && 0 <= k < |ts| && Inherit(x, ts[j]) && Inherit(ts[j], ts[k]) :: Inherit(x, ts[k])
  }

  /** A dropped member from which inheritance chains is still covered at the end. */
  lemma {:induction false} PruneCovers(ts: seq<TypeTree>, i: nat, x: TypeTree)
    requires ShapedAll(ts) && Shaped(x) && ChainsFrom(x, ts)
    requires exists k :: 0 <= k < |ts| && Inherit(x, ts[k])
    ensures exists y :: y in Prune(ts, i) && Shaped(y) && Inherit(x, y)
    decreases |ts| - i
  {
    if i >= |ts| {
      var k :| 0 <= k < |ts| && Inherit(x, ts[k]);
      assert ts[k] in Prune(ts, i);
    } else if Covered(ts, i) {
      WithoutCovers(ts, i, x);
      PruneCovers(Without(ts, i), i, x);
    } else {
      PruneCovers(ts, i + 1, x);
    }
  }

  /** Dropping one covered member. */
  lemma {:induction false} WithoutCovers(ts: seq<TypeTree>, i: nat, x: TypeTree)
    requires ShapedAll(ts) && Shaped(x) && ChainsFrom(x, ts)
    requires exists k :: 0 <= k < |ts| && Inherit(x, ts[k])
    requires i < |ts| && Covered(ts, i)
    ensures ShapedAll(Without(ts, i)) && ChainsFrom(x, Without(ts, i))
    ensures exists k :: 0 <= k < |Without(ts, i)| && Inherit(x, Without(ts, i)[k])
  {
    var n := CoverBeside(ts, i, x);
    var ts' := Without(ts, i);
    assert ts'[if n < i then n else n - 1] == ts[n];
    assert forall k | 0 <= k < |ts'| :: ts'[k] in ts;
    ChainsFromFewer(x, ts, ts');
  }

  lemma {:induction false} ChainsFromFewer(x: TypeTree, ts: seq<TypeTree>, fewer: seq<TypeTree>)
    requires ShapedAll(ts) && Shaped(x) && ChainsFrom(x, ts) && forall k | 0 <= k < |fewer| :: fewer[k] in ts
    ensures ShapedAll(fewer) && ChainsFrom(x, fewer)
  {
    forall k | 0 <= k < |fewer| ensures Shaped(fewer[k]) {
      assert fewer[k] in ts;
    }
    forall j, k | 0 <= j < |fewer| && 0 <= k < |fewer| && Inherit(x, fewer[j]) && Inherit(fewer[j], fewer[k])
      ensures Inherit(x, fewer[k])
    {
      var j' :| 0 <= j' < |ts| && ts[j'] == fewer[j];
      var k' :| 0 <= k' < |ts| && ts[k'] == fewer[k];
      assert Inherit(x, ts[j']) && Inherit(ts[j'], ts[k']);
    }
  }

  lemma {:induction false} CoverBeside(ts: seq<TypeTree>, i: nat, x: TypeTree) returns (n: nat)
    requires ShapedAll(ts) && Shaped(x) && ChainsFrom(x, ts)
    requires exists k :: 0 <= k < |ts| && Inherit(x, ts[k])
    requires i < |ts| && Covered(ts, i)
    ensures n < |ts| && n != i && Inherit(x, ts[n])
  {
    n :| n < |ts| && Inherit(x, ts[n]);
    if n == i {
      n :| n < |ts| && n != i && Inherit(ts[i], ts[n]);
    }
  }

  lemma {:induction false} UniteKeepsMember(ts: seq<TypeTree>, x: TypeTree, args: seq<TypeTree>)
    requires ReducibleAll(ts) && ts != [] && Shaped(x)
    requires exists y :: y in Prune(ts, 0) && Shaped(y) && Inherit(x, y)
    ensures Inherit(x, Unite(ts, args))
  {
    var left := Prune(ts, 0);
    var y :| y in left && Shaped(y) && Inherit(x, y);
    var k :| 0 <= k < |left| && left[k] == y;
    if |left| > 1 { InheritMember(x, Unite(ts, args), k); }
  }

  lemma {:induction false} NormalIsReflexive(t: TypeTree)
    requires Normal(t) && WellFormed(t)
    ensures Inherit(t, t)
  {
    NormalParts(t);
    InheritReflexive(t);
  }

  lemma {:induction false} NormalParts(t: TypeTree)
    requires Normal(t)
    ensures Shaped(t) && NoApplication(t) && ArgFree(t)
  {
    forall i | 0 <= i < |t.kids| ensures NoApplication(t.kids[i]) && ArgFree(t.kids[i]) {
      NormalParts(t.kids[i]);
    }
  }

  /** The reduction of the union of ts neither gains nor loses a value. */
  ghost predicate ReducesEquivalently(ts: seq<TypeTree>, args: seq<TypeTree>)
    requires ArgTypes(args)
  {
    var u := Node(Union, ts);
    Reducible(u) && EqualType(u, Reduce(u, args))
  }

  /** Inheritance chains among the members of a collection. */
  ghost predicate Chained(ms: set<TypeTree>)
    requires forall m | m in ms :: Shaped(m)
  {
    forall a, b, c | a in ms && b in ms && c in ms && Inherit(a, b) && Inherit(b, c) :: Inherit(a, c)
  }

  /** Exactly when the reduction of unions is sound: every union of members of a
      collection reduces to an equivalent type if and only if inheritance chains
      among them. */
  lemma {:induction false} UnionReductionExactly(ms: set<TypeTree>, args: seq<TypeTree>)
    requires ArgTypes(args) && forall m | m in ms :: Shaped(m) && Normal(m) && WellFormed(m)
    ensures Chained(ms) <==>
            forall ts: seq<TypeTree> | ts != [] && (forall i | 0 <= i < |ts| :: ts[i] in ms) :: ReducesEquivalently(ts, args)
  {
    if Chained(ms) {
      forall ts: seq<TypeTree> | ts != [] && (forall i | 0 <= i < |ts| :: ts[i] in ms)
        ensures ReducesEquivalently(ts, args)
      {
        forall i | 0 <= i < |ts| ensures ChainsFrom(ts[i], ts) {}
        ChainedUnionReduces(ts, args);
      }
    } else {
      var a, b, c :| a in ms && b in ms && c in ms && Inherit(a, b) && Inherit(b, c) && !Inherit(a, c);
      var ts := [a, b, c];
      assert forall i | 0 <= i < |ts| :: ts[i] in ms;
      BrokenChainReduces(a, b, c, args);
    }
  }

  lemma {:induction false} ChainedUnionReduces(ts: seq<TypeTree>, args: seq<TypeTree>)
    requires ArgTypes(args) && ts != [] && ShapedAll(ts)
    requires forall i | 0 <= i < |ts| :: Normal(ts[i]) && WellFormed(ts[i]) && ChainsFrom(ts[i], ts)
    ensures ReducesEquivalently(ts, args)
    ensures var r := Reduce(Node(Union, ts), args);
            r in ts || (r.op.Union? && Incomparable(r.kids))
  {
    ReduceNormalAll(ts, args);
    UniteIsEquivalent(ts, args);
  }

  lemma {:induction false} UniteIsEquivalent(ts: seq<TypeTree>, args: seq<TypeTree>)
    requires ReducibleAll(ts) && |ts| > 0
    requires forall i | 0 <= i < |ts| :: Normal(ts[i]) && WellFormed(ts[i]) && ChainsFrom(ts[i], ts)
    ensures var r := Unite(ts, args);
            EqualType(Node(Union, ts), r) && (r in ts || (r.op.Union? && Incomparable(r.kids)))
  {
    var u, r, left := Node(Union, ts), Unite(ts, args), Prune(ts, 0);
    PruneLeavesIncomparable(ts, 0);
    forall i | 0 <= i < |ts| ensures Inherit(ts[i], r) {
      NormalIsReflexive(ts[i]);
      PruneCovers(ts, 0, ts[i]);
      UniteKeepsMember(ts, ts[i], args);
    }
    forall k | 0 <= k < |left| ensures Inherit(left[k], u) {
      assert left[k] in ts;
      var i :| 0 <= i < |ts| && ts[i] == left[k];
      NormalIsReflexive(ts[i]);
      InheritMember(ts[i], u, i);
    }
  }

  /** Without unknown parameters inheritance always chains. */
  lemma {:induction false} UnionReductionIsEquivalent(ts: seq<TypeTree>, args: seq<TypeTree>)
    requires ArgTypes(args) && |ts| > 0
    requires forall i | 0 <= i < |ts| :: Normal(ts[i]) && WellFormed(ts[i]) && NoUnknownParameter(ts[i])
    ensures ReducesEquivalently(ts, args)
    ensures var r := Reduce(Node(Union, ts), args);
            r in ts || (r.op.Union? && Incomparable(r.kids))
  {
    forall i | 0 <= i < |ts| ensures ChainsFrom(ts[i], ts) {
      forall j, k | 0 <= j < |ts| && 0 <= k < |ts| && Inherit(ts[i], ts[j]) && Inherit(ts[j], ts[k])
        ensures Inherit(ts[i], ts[k])
      {
        InheritTransitive(ts[i], ts[j], ts[k]);
      }
    }
    ChainedUnionReduces(ts, args);
  }

  /** The end of a broken chain drops its middle, which has dropped its beginning. */
  lemma {:induction false} BrokenChainReduces(a: TypeTree, b: TypeTree, c: TypeTree, args: seq<TypeTree>)
    requires ArgTypes(args) && Normal(a) && Normal(b) && Normal(c)
    requires Inherit(a, b) && Inherit(b, c) && !Inherit(a, c)
    ensures var u := Node(Union, [a, b, c]);
            Reducible(u) && Reduce(u, args) == c && !Inherit(u, c) && !ReducesEquivalently([a, b, c], args)
  {
    var ts := [a, b, c];
    assert forall i | 0 <= i < |ts| :: Normal(ts[i]);
    PruneChain(a, b, c);
    ReduceUnionOf(ts, c, args);
    assert !Inherit(ts[0], c) && Node(Union, ts).kids == ts;
  }

  lemma {:induction false} ReduceUnionOf(ts: seq<TypeTree>, c: TypeTree, args: seq<TypeTree>)
    requires ArgTypes(args) && ts != [] && forall i | 0 <= i < |ts| :: Normal(ts[i])
    requires ShapedAll(ts) && Prune(ts, 0) == [c]
    ensures Reducible(Node(Union, ts)) && Reduce(Node(Union, ts), args) == c
  {
    ReduceNormalAll(ts, args);
  }

  /** Such a chain: ->(contin r) is dropped for ->(unknown r), which is then dropped
      for ->(boolean r). */
  lemma {:induction false} UnionReductionCanLoseAMember(r: TypeTree)
    requires Normal(r) && WellFormed(r)
    ensures var a := Node(Lambda, [Leaf(Contin), r]);
            var b := Node(Lambda, [Leaf(Unknown), r]);
            var c := Node(Lambda, [Leaf(Boolean), r]);
            && Reducible(Node(Union, [a, b, c]))
            && Reduce(Node(Union, [a, b, c]), []) == c
            && !Inherit(Node(Union, [a, b, c]), c)
  {
    NormalParts(r);
    UnknownParameterBreaksTransitivity(r);
    PairIsNormal(Lambda, Leaf(Contin), r);
    PairIsNormal(Lambda, Leaf(Unknown), r);
    PairIsNormal(Lambda, Leaf(Boolean), r);
    BrokenChainReduces(Node(Lambda, [Leaf(Contin), r]), Node(Lambda, [Leaf(Unknown), r]), Node(Lambda, [Leaf(Boolean), r]), []);
  }

  lemma {:induction false} PruneChain(a: TypeTree, b: TypeTree, c: TypeTree)
    requires Shaped(a) && Shaped(b) && Shaped(c) && Inherit(a, b) && Inherit(b, c)
    ensures Prune([a, b, c], 0) == [c]
  {
    var ts := [a, b, c];
    assert Inherit(ts[0], ts[1]) && Covered(ts, 0);
    var ts1 := Without(ts, 0);
    assert ts1 == [b, c];
    assert Inherit(ts1[0], ts1[1]) && Covered(ts1, 0);
    assert Without(ts1, 0) == [c];
    assert !Covered([c], 0);
    assert Prune([c], 0) == Prune([c], 1) == [c];
  }

  // ---------------------------------------------------------------- ordered sets of types

  /** Position of a label in the source's enumeration. */
  function Rank(n: TypeNode): int {
    match n
    case Lambda => 0
    case Application => 1
    case Union => 2
    case ArgList => 3
    case Boolean => 4
    case Contin => 5
    case EnumType => 6
    case ListType => 7
    case ActionResult => 8
    case DefiniteObject => 9
    case ActionDefiniteObject => 10
    case IndefiniteObject => 11
    case MessageType => 12
    case ActionSymbol => 13
    case WildCard => 14
    case Ann => 15
    case Unknown => 16
    case IllFormed => 17
    case Argument(i) => 18 + i
  }

  predicate RankBefore(x: TypeNode, y: TypeNode) { Rank(x) < Rank(y) }

  predicate TypeBefore(a: TypeTree, b: TypeTree) {
    TreeOrder.SizeBefore(RankBefore, a, b)
  }

  lemma {:induction false} TypeBeforeTrichotomy(a: TypeTree, b: TypeTree)
    ensures TypeBefore(a, b) || TypeBefore(b, a) || a == b
  {
    assert TreeOrder.StrictTotal(RankBefore);
    TreeOrder.CmpOpposite(RankBefore, a, b);
  }

  /** Insertion into a set kept in increasing order. */
  function Insert(s: seq<TypeTree>, x: TypeTree): (r: seq<TypeTree>)
    ensures forall y :: y in r <==> y in s || y == x
  {
    if s == [] then [x]
    else if TypeBefore(x, s[0]) then [x] + s
    else if TypeBefore(s[0], x) then [s[0]] + Insert(s[1..], x)
    else TypeBeforeTrichotomy(x, s[0]); s
  }

  // ---------------------------------------------------------------- intersection

  /** The intersection the type checker computes; ill_formed when it finds none. */
  function Intersect(a: TypeTree, b: TypeTree): (r: TypeTree)
    requires Reducible(a) && Reducible(b)
    ensures Reducible(r)
    decreases Size(a) + Size(b), 0
  {
    if Inherit(a, b) then a
    else if Inherit(b, a) then b
    else if a.op.Union? && b.op.Union? then
      var common := IntersectRows(a.kids, b.kids, []);
      if common == [] then Leaf(IllFormed)
      else if |common| == 1 then common[0]
      else Node(Union, common)
    else if a.op.Lambda? && b.op.Lambda? then
      if |a.kids| != |b.kids| then
        Leaf(IllFormed)
      else
        MeetLambdas(a.kids, b.kids, Intersect(Last(a.kids), Last(b.kids)))
    else if a.op.Unknown? then b
    else if b.op.Unknown? then a
    else Leaf(IllFormed)
  }

  /** The unions of the parameters, position by position. */
  function Pairs(xs: seq<TypeTree>, ys: seq<TypeTree>): (r: seq<TypeTree>)
    requires |xs| == |ys| && ReducibleAll(xs) && ReducibleAll(ys)
    ensures |r| == |xs| && ReducibleAll(r)
    ensures forall i | 0 <= i < |r| :: r[i] == Node(Union, [xs[i], ys[i]])
  {
    if xs == [] then [] else [Node(Union, [xs[0], ys[0]])] + Pairs(xs[1..], ys[1..])
  }

  /** A lambda over the unions of the parameters, with the given result, reduced. */
  function MeetLambdas(xs: seq<TypeTree>, ys: seq<TypeTree>, out: TypeTree): (r: TypeTree)
    requires |xs| == |ys| > 0 && ReducibleAll(xs) && ReducibleAll(ys) && Reducible(out)
    ensures Reducible(r)
  {
    var n := |xs| - 1;
    Reduce(Node(Lambda, Pairs(xs[..n], ys[..n]) + [out]), [])
  }

  /** The set of well-formed intersections of one member with each of ys. */
  function IntersectRow(x: TypeTree, ys: seq<TypeTree>, found: seq<TypeTree>): (r: seq<TypeTree>)
    requires Reducible(x) && ReducibleAll(ys) && ReducibleAll(found)
    ensures ReducibleAll(r)
    decreases Size(x) + SizeAll(ys), 1
  {
    if ys == [] then found
    else
      var z := Intersect(x, ys[0]);
      var found' := if WellFormed(z) then Insert(found, z) else found;
      assert forall i | 0 <= i < |found'| :: found'[i] in found || found'[i] == z;
      IntersectRow(x, ys[1..], found')
  }

  function IntersectRows(xs: seq<TypeTree>, ys: seq<TypeTree>, found: seq<TypeTree>): (r: seq<TypeTree>)
    requires ReducibleAll(xs) && ReducibleAll(ys) && ReducibleAll(found)
    ensures ReducibleAll(r)
    decreases SizeAll(xs) + SizeAll(ys), 2
  {
    if xs == [] then found else IntersectRows(xs[1..], ys, IntersectRow(xs[0], ys, found))
  }

  // ---------------------------------------------------------------- what the intersection means

  /** The trees Intersect returns when given such trees: normal ones, and unions
      of them at any depth that were not pruned. */
  predicate Tidy(t: TypeTree) {
    || Normal(t)
    || (t.op.Union? && t.kids != [] && forall i | 0 <= i < |t.kids| :: Tidy(t.kids[i]) && WellFormed(t.kids[i]))
  }

  lemma {:induction false} TidyParts(t: TypeTree)
    requires Tidy(t)
    ensures Reducible(t) && NoApplication(t)
  {
    if Normal(t) {
      NormalParts(t);
      ReduceNormal(t, []);
    } else {
      forall i | 0 <= i < |t.kids| ensures Reducible(t.kids[i]) && NoApplication(t.kids[i]) {
        TidyParts(t.kids[i]);
      }
    }
  }

  /** The members of a tidy well-formed union are tidy and well formed. */
  lemma {:induction false} TidyMember(t: TypeTree, i: nat)
    requires Tidy(t) && WellFormed(t) && t.op.Union? && i < |t.kids|
    ensures Tidy(t.kids[i]) && WellFormed(t.kids[i])
  {
  }

  lemma {:induction false} TidyIsReflexive(t: TypeTree)
    requires Tidy(t) && WellFormed(t)
    ensures Reducible(t) && Inherit(t, t)
  {
    TidyParts(t);
    InheritReflexive(t);
  }

  /** x is a usable member of the intersection of a and b. */
  ghost predicate Common(x: TypeTree, a: TypeTree, b: TypeTree)
    requires Shaped(a) && Shaped(b)
  {
    Tidy(x) && Shaped(x) && WellFormed(x) && Inherit(x, a) && Inherit(x, b)
  }

  ghost predicate CommonAll(xs: seq<TypeTree>, a: TypeTree, b: TypeTree)
    requires Shaped(a) && Shaped(b)
  {
    forall i | 0 <= i < |xs| :: Common(xs[i], a, b)
  }

  /** A well-formed intersection inherits from both types, and can be narrowed further. */
  lemma {:induction false} IntersectInheritsBoth(a: TypeTree, b: TypeTree)
    requires Tidy(a) && WellFormed(a) && Tidy(b) && WellFormed(b) && Reducible(a) && Reducible(b)
    ensures Sound(a, b, Intersect(a, b))
    decreases Size(a) + Size(b), 2
  {
    if !Inherit(a, b) && !Inherit(b, a) && a.op.Union? && b.op.Union? {
      IntersectUnions(a, b);
    } else if !Inherit(a, b) && !Inherit(b, a) && a.op.Lambda? && b.op.Lambda? {
      IntersectLambdas(a, b);
    } else {
      IntersectOthers(a, b);
    }
  }

  lemma {:induction false} IntersectOthers(a: TypeTree, b: TypeTree)
    requires Tidy(a) && WellFormed(a) && Tidy(b) && WellFormed(b) && Reducible(a) && Reducible(b)
    requires Inherit(a, b) || Inherit(b, a) || !((a.op.Union? && b.op.Union?) || (a.op.Lambda? && b.op.Lambda?))
    ensures Sound(a, b, Intersect(a, b))
  {
    TidyIsReflexive(a);
    TidyIsReflexive(b);
    if a.op.Unknown? { BelowUnknown(b); }
    if b.op.Unknown? { BelowUnknown(a); }
  }

  lemma {:induction false} BelowUnknown(t: TypeTree)
    requires Tidy(t) && WellFormed(t) && Shaped(t)
    ensures Inherit(t, Leaf(Unknown))
  {
    if t.op.Union? {
      forall i | 0 <= i < |t.kids| ensures Inherit(t.kids[i], Leaf(Unknown)) {
        TidyMember(t, i);
        BelowUnknown(t.kids[i]);
      }
    }
  }

  /** What is wanted of r as an intersection of a and b. */
  ghost predicate Sound(a: TypeTree, b: TypeTree, r: TypeTree)
    requires Shaped(a) && Shaped(b)
  {
    && Tidy(r) && Shaped(r)
    && (WellFormed(r) ==> Inherit(r, a) && Inherit(r, b))
  }

  lemma {:induction false} IntersectUnions(a: TypeTree, b: TypeTree)
    requires Tidy(a) && WellFormed(a) && Tidy(b) && WellFormed(b) && Reducible(a) && Reducible(b)
    requires a.op.Union? && b.op.Union? && !Inherit(a, b) && !Inherit(b, a)
    ensures Sound(a, b, Intersect(a, b))
    decreases Size(a) + Size(b), 1
  {
    CommonRows(a, b, a.kids, b.kids, []);
    UnionOfCommon(a, b, IntersectRows(a.kids, b.kids, []));
  }

  lemma {:induction false} IntersectLambdas(a: TypeTree, b: TypeTree)
    requires Tidy(a) && WellFormed(a) && Tidy(b) && WellFormed(b) && Reducible(a) && Reducible(b)
    requires a.op.Lambda? && b.op.Lambda? && !Inherit(a, b) && !Inherit(b, a)
    ensures Sound(a, b, Intersect(a, b))
    decreases Size(a) + Size(b), 1
  {
    if |a.kids| == |b.kids| {
      IntersectInheritsBoth(Last(a.kids), Last(b.kids));
      LambdaIntersection(a, b, Intersect(Last(a.kids), Last(b.kids)));
    }
  }

  lemma {:induction false} UnionOfCommon(a: TypeTree, b: TypeTree, common: seq<TypeTree>)
    requires Shaped(a) && Shaped(b) && CommonAll(common, a, b)
    ensures common != [] ==> Sound(a, b, Node(Union, common))
    ensures |common| == 1 ==> Sound(a, b, common[0])
  {
    if common != [] {
      assert Common(common[0], a, b);
      var u := Node(Union, common);
      assert forall i | 0 <= i < |u.kids| :: Common(u.kids[i], a, b);
    }
  }

  lemma {:induction false} CommonRows(a: TypeTree, b: TypeTree, xs: seq<TypeTree>, ys: seq<TypeTree>, found: seq<TypeTree>)
    requires Tidy(a) && WellFormed(a) && Tidy(b) && WellFormed(b) && Shaped(a) && Shaped(b) && a.op.Union? && b.op.Union?
    requires (forall x | x in xs :: x in a.kids) && (forall y | y in ys :: y in b.kids)
    requires ReducibleAll(xs) && ReducibleAll(ys) && ReducibleAll(found) && CommonAll(found, a, b)
    ensures CommonAll(IntersectRows(xs, ys, found), a, b)
    decreases SizeAll(xs) + SizeAll(ys), 4
  {
    if xs != [] {
      CommonRow(a, b, xs[0], ys, found);
      CommonRows(a, b, xs[1..], ys, IntersectRow(xs[0], ys, found));
    }
  }

  lemma {:induction false} CommonRow(a: TypeTree, b: TypeTree, x: TypeTree, ys: seq<TypeTree>, found: seq<TypeTree>)
    requires Tidy(a) && WellFormed(a) && Tidy(b) && WellFormed(b) && Shaped(a) && Shaped(b) && a.op.Union? && b.op.Union?
    requires x in a.kids && (forall y | y in ys :: y in b.kids)
    requires Reducible(x) && ReducibleAll(ys) && ReducibleAll(found) && CommonAll(found, a, b)
    ensures CommonAll(IntersectRow(x, ys, found), a, b)
    decreases Size(x) + SizeAll(ys), 3
  {
    if ys != [] {
      var y := ys[0];
      var i :| 0 <= i < |a.kids| && a.kids[i] == x;
      assert y in ys;
      var j :| 0 <= j < |b.kids| && b.kids[j] == y;
      TidyMember(a, i);
      TidyMember(b, j);
      IntersectInheritsBoth(x, y);
      var z := Intersect(x, y);
      var found' := if WellFormed(z) then Insert(found, z) else found;
      if WellFormed(z) {
        MemberIsCommon(a, b, i, j, z);
      }
      forall k | 0 <= k < |found'| ensures Common(found'[k], a, b) && Reducible(found'[k]) {
        assert found'[k] in found || found'[k] == z;
      }
      CommonRow(a, b, x, ys[1..], found');
    }
  }

  lemma {:induction false} MemberIsCommon(a: TypeTree, b: TypeTree, i: nat, j: nat, z: TypeTree)
    requires Shaped(a) && Shaped(b) && a.op.Union? && b.op.Union? && i < |a.kids| && j < |b.kids|
    requires Tidy(z) && Shaped(z) && WellFormed(z) && Inherit(z, a.kids[i]) && Inherit(z, b.kids[j])
    ensures Common(z, a, b)
  {
    InheritMember(z, a, i);
    InheritMember(z, b, j);
  }

  /** The union of two parameters covers both after reduction. */
  lemma {:induction false} PairCoversBoth(p: TypeTree, q: TypeTree)
    requires Normal(p) && WellFormed(p) && Normal(q) && WellFormed(q) && Reducible(p) && Reducible(q)
    ensures Reducible(Node(Union, [p, q]))
    ensures var u := Reduce(Node(Union, [p, q]), []);
            Normal(u) && Inherit(p, u) && Inherit(q, u)
  {
    PairReduces(p, q);
    NormalIsReflexive(p);
    NormalIsReflexive(q);
    if !Inherit(p, q) && !Inherit(q, p) { UnionOfTwo(p, q); }
  }

  lemma {:induction false} UnionOfTwo(p: TypeTree, q: TypeTree)
    requires Normal(p) && Normal(q) && !Inherit(p, q) && !Inherit(q, p) && Inherit(p, p) && Inherit(q, q)
    ensures var u := Node(Union, [p, q]);
            Normal(u) && Inherit(p, u) && Inherit(q, u)
  {
    var u := Node(Union, [p, q]);
    assert u.kids[0] == p && u.kids[1] == q;
    InheritMember(p, u, 0);
    InheritMember(q, u, 1);
  }

  lemma {:induction false} PairReduces(p: TypeTree, q: TypeTree)
    requires Normal(p) && Normal(q) && Reducible(p) && Reducible(q)
    ensures Reducible(Node(Union, [p, q]))
    ensures Reduce(Node(Union, [p, q]), []) ==
            if Inherit(p, q) then q else if Inherit(q, p) then p else Node(Union, [p, q])
  {
    ReduceNormalAll([p, q], []);
    PruneTwo(p, q);
  }

  lemma {:induction false} PruneTwo(p: TypeTree, q: TypeTree)
    requires Shaped(p) && Shaped(q)
    ensures Prune([p, q], 0) == if Inherit(p, q) then [q] else if Inherit(q, p) then [p] else [p, q]
  {
    var ts := [p, q];
    assert Covered(ts, 0) <==> Inherit(p, q) by {
      assert ts[1] == q;
    }
    assert Covered(ts, 1) <==> Inherit(q, p) by {
      assert ts[0] == p;
    }
    assert Without(ts, 0) == [q] && Without(ts, 1) == [p];
    assert !Covered([q], 0);
    assert Prune([q], 0) == Prune([q], 1) == [q];
    if !Inherit(p, q) {
      assert Prune(ts, 0) == Prune(ts, 1);
      assert Prune([p], 1) == [p];
      assert Prune(ts, 2) == ts;
    }
  }

  /** Reducing a tidy tree keeps it below whatever it was below. */
  lemma {:induction false} ReduceTidy(t: TypeTree)
    requires Tidy(t)
    ensures Reducible(t)
    ensures var r := Reduce(t, []);
            && Normal(r) && (WellFormed(r) ==> WellFormed(t))
            && forall y | Shaped(y) && Inherit(t, y) :: Inherit(r, y)
  {
    if Normal(t) {
      ReduceNormal(t, []);
    } else {
      TidyParts(t);
      var rs := ReduceAll(t.kids, []);
      forall i | 0 <= i < |rs|
        ensures Normal(rs[i]) && forall y | Shaped(y) && Inherit(t.kids[i], y) :: Inherit(rs[i], y)
      {
        ReduceTidy(t.kids[i]);
      }
      UniteNormal(rs);
      forall y | Shaped(y) && Inherit(t, y) ensures Inherit(Reduce(t, []), y) {
        UniteBelow(rs, y);
      }
    }
  }

  lemma {:induction false} UniteNormal(ts: seq<TypeTree>)
    requires ReducibleAll(ts) && ts != [] && forall i | 0 <= i < |ts| :: Normal(ts[i])
    ensures Normal(Unite(ts, []))
  {
    PruneLeavesIncomparable(ts, 0);
    var left := Prune(ts, 0);
    forall k | 0 <= k < |left| ensures Normal(left[k]) {
      assert left[k] in left;
    }
  }

  /** A union is below y when its members are. */
  lemma {:induction false} UniteBelow(ts: seq<TypeTree>, y: TypeTree)
    requires ReducibleAll(ts) && ts != [] && Shaped(y)
    requires forall i | 0 <= i < |ts| :: Inherit(ts[i], y)
    ensures Inherit(Unite(ts, []), y)
  {
    var left := Prune(ts, 0);
    forall k | 0 <= k < |left| ensures Shaped(left[k]) && Inherit(left[k], y) {
      assert left[k] in left;
      var i :| 0 <= i < |ts| && ts[i] == left[k];
    }
  }

  lemma {:induction false} MeetLambdasParts(xs: seq<TypeTree>, ys: seq<TypeTree>, out: TypeTree)
    requires |xs| == |ys| >= 2 && ReducibleAll(xs) && ReducibleAll(ys) && Reducible(out)
    ensures var r, n := MeetLambdas(xs, ys, out), |xs| - 1;
            && r.op.Lambda? && |r.kids| == |xs| && r.kids[n] == Reduce(out, [])
            && forall i | 0 <= i < n ::
                 Reducible(Node(Union, [xs[i], ys[i]])) && r.kids[i] == Reduce(Node(Union, [xs[i], ys[i]]), [])
  {
    var n := |xs| - 1;
    var ts := Pairs(xs[..n], ys[..n]) + [out];
    forall i | 0 <= i < n ensures Reducible(ts[i]) && ts[i] == Node(Union, [xs[i], ys[i]]) {
      assert xs[..n][i] == xs[i] && ys[..n][i] == ys[i];
    }
    assert ts[n] == out;
  }

  lemma {:induction false} LambdaIntersection(a: TypeTree, b: TypeTree, out: TypeTree)
    requires Normal(a) && WellFormed(a) && Normal(b) && WellFormed(b) && Reducible(a) && Reducible(b)
    requires a.op.Lambda? && b.op.Lambda? && |a.kids| == |b.kids|
    requires Tidy(out) && Reducible(out) && (WellFormed(out) ==> Inherit(out, Last(a.kids)) && Inherit(out, Last(b.kids)))
    ensures Sound(a, b, MeetLambdas(a.kids, b.kids, out))
  {
    ParametersCovered(a.kids, b.kids, out);
    ResultStaysBelow(a.kids, b.kids, out);
    CoveringLambda(a, b, MeetLambdas(a.kids, b.kids, out));
  }

  lemma {:induction false} ParametersCovered(xs: seq<TypeTree>, ys: seq<TypeTree>, out: TypeTree)
    requires |xs| == |ys| >= 2 && ReducibleAll(xs) && ReducibleAll(ys) && Reducible(out)
    requires forall i | 0 <= i < |xs| :: Normal(xs[i]) && WellFormed(xs[i]) && Normal(ys[i]) && WellFormed(ys[i])
    ensures var r := MeetLambdas(xs, ys, out);
            && r.op.Lambda? && |r.kids| == |xs| && ShapedAll(r.kids) && ShapedAll(xs) && ShapedAll(ys)
            && forall i | 0 <= i < |xs| - 1 :: Normal(r.kids[i]) && Inherit(xs[i], r.kids[i]) && Inherit(ys[i], r.kids[i])
  {
    MeetLambdasParts(xs, ys, out);
    var r := MeetLambdas(xs, ys, out);
    forall i | 0 <= i < |xs| - 1
      ensures Normal(r.kids[i]) && Inherit(xs[i], r.kids[i]) && Inherit(ys[i], r.kids[i])
    {
      PairCoversBoth(xs[i], ys[i]);
    }
  }

  lemma {:induction false} ResultStaysBelow(xs: seq<TypeTree>, ys: seq<TypeTree>, out: TypeTree)
    requires |xs| == |ys| >= 2 && ReducibleAll(xs) && ReducibleAll(ys) && Reducible(out)
    requires Tidy(out) && (WellFormed(out) ==> Inherit(out, Last(xs)) && Inherit(out, Last(ys)))
    ensures var r := MeetLambdas(xs, ys, out);
            && r.op.Lambda? && |r.kids| == |xs| && Normal(Last(r.kids))
            && (WellFormed(Last(r.kids)) ==> Inherit(Last(r.kids), Last(xs)) && Inherit(Last(r.kids), Last(ys)))
  {
    MeetLambdasParts(xs, ys, out);
    ReduceTidy(out);
  }

  /** A lambda whose parameters cover those of a and b, with a result below both. */
  lemma {:induction false} CoveringLambda(a: TypeTree, b: TypeTree, r: TypeTree)
    requires Shaped(a) && Shaped(b) && a.op.Lambda? && b.op.Lambda? && r.op.Lambda?
    requires |r.kids| == |a.kids| == |b.kids| >= 2
    requires ShapedAll(a.kids) && ShapedAll(b.kids) && ShapedAll(r.kids) && Normal(Last(r.kids))
    requires forall i | 0 <= i < |r.kids| - 1 ::
               Normal(r.kids[i]) && Inherit(a.kids[i], r.kids[i]) && Inherit(b.kids[i], r.kids[i])
    requires WellFormed(Last(r.kids)) ==> Inherit(Last(r.kids), Last(a.kids)) && Inherit(Last(r.kids), Last(b.kids))
    ensures Sound(a, b, r)
  {
    if WellFormed(r) { assert WellFormed(r.kids[|r.kids| - 1]); }
  }
}
