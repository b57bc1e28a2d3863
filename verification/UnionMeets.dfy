/** The set of types that the intersection of two unions collects. */
module UnionMeets {
  import opened Trees
  import opened TypeTrees
  import opened TypeReduce
  import opened TypeIntersection
  import TreeOrder

  /** In increasing order, and so without repetition. */
  predicate Ascending(ts: seq<TypeTree>) {
    forall i, j | 0 <= i < j < |ts| :: TypeBefore(ts[i], ts[j])
  }

  lemma {:induction false} BeforeTransitive(a: TypeTree, b: TypeTree, c: TypeTree)
    requires TypeBefore(a, b) && TypeBefore(b, c)
    ensures TypeBefore(a, c)
  {
    assert TreeOrder.StrictTotal(RankBefore);
    if Size(a) == Size(b) == Size(c) { TreeOrder.CmpTransitive(RankBefore, a, b, c); }
  }

  lemma {:induction false} InsertAscends(s: seq<TypeTree>, x: TypeTree)
    requires Ascending(s)
    ensures Ascending(Insert(s, x))
  {
    if s != [] {
      TypeBeforeTrichotomy(x, s[0]);
      if TypeBefore(x, s[0]) {
        forall j | 0 < j < |s| ensures TypeBefore(x, s[j]) { BeforeTransitive(x, s[0], s[j]); }
      } else if TypeBefore(s[0], x) {
        InsertAscends(s[1..], x);
        var r := Insert(s[1..], x);
        forall j | 0 <= j < |r| ensures TypeBefore(s[0], r[j]) { assert r[j] in s[1..] || r[j] == x; }
      }
    }
  }

  lemma {:induction false} RowIsExact(x: TypeTree, ys: seq<TypeTree>, found: seq<TypeTree>)
    requires Reducible(x) && ReducibleAll(ys) && ReducibleAll(found) && Ascending(found)
    ensures Ascending(IntersectRow(x, ys, found))
    ensures forall z :: z in IntersectRow(x, ys, found) <==> z in found || InRow(z, x, ys)
    decreases ys
  {
    if ys != [] {
      var z := Intersect(x, ys[0]);
      var found' := if WellFormed(z) then Insert(found, z) else found;
      assert forall i | 0 <= i < |found'| :: found'[i] in found || found'[i] == z;
      InsertAscends(found, z);
      RowIsExact(x, ys[1..], found');
      forall u ensures InRow(u, x, ys) <==> (WellFormed(z) && u == z) || InRow(u, x, ys[1..]) { InRowStep(u, x, ys); }
    }
  }

  /** z is a well-formed intersection of x with one of ys. */
  ghost predicate InRow(z: TypeTree, x: TypeTree, ys: seq<TypeTree>)
    requires Reducible(x) && ReducibleAll(ys)
  {
    WellFormed(z) && exists j | 0 <= j < |ys| :: z == Intersect(x, ys[j])
  }

  lemma {:induction false} InRowStep(z: TypeTree, x: TypeTree, ys: seq<TypeTree>)
    requires Reducible(x) && ReducibleAll(ys) && ys != []
    ensures InRow(z, x, ys) <==> (WellFormed(z) && z == Intersect(x, ys[0])) || InRow(z, x, ys[1..])
  {
    if InRow(z, x, ys) {
      var j :| 0 <= j < |ys| && z == Intersect(x, ys[j]);
      if j > 0 { assert ys[1..][j - 1] == ys[j]; }
    }
    if InRow(z, x, ys[1..]) {
      var j :| 0 <= j < |ys| - 1 && z == Intersect(x, ys[1..][j]);
      assert ys[j + 1] == ys[1..][j];
    }
  }

  /** z is a well-formed intersection of one of xs with one of ys. */
  ghost predicate InRows(z: TypeTree, xs: seq<TypeTree>, ys: seq<TypeTree>)
    requires ReducibleAll(xs) && ReducibleAll(ys)
  {
    exists i | 0 <= i < |xs| :: InRow(z, xs[i], ys)
  }

  lemma {:induction false} RowsAreExact(xs: seq<TypeTree>, ys: seq<TypeTree>, found: seq<TypeTree>)
    requires ReducibleAll(xs) && ReducibleAll(ys) && ReducibleAll(found) && Ascending(found)
    ensures Ascending(IntersectRows(xs, ys, found))
    ensures forall z :: z in IntersectRows(xs, ys, found) <==> z in found || InRows(z, xs, ys)
    decreases xs
  {
    if xs != [] {
      RowIsExact(xs[0], ys, found);
      RowsAreExact(xs[1..], ys, IntersectRow(xs[0], ys, found));
      forall z ensures InRows(z, xs, ys) <==> InRow(z, xs[0], ys) || InRows(z, xs[1..], ys) { InRowsStep(z, xs, ys); }
    }
  }

  lemma {:induction false} InRowsStep(z: TypeTree, xs: seq<TypeTree>, ys: seq<TypeTree>)
    requires ReducibleAll(xs) && ReducibleAll(ys) && xs != []
    ensures InRows(z, xs, ys) <==> InRow(z, xs[0], ys) || InRows(z, xs[1..], ys)
  {
    if InRows(z, xs, ys) {
      var i :| 0 <= i < |xs| && InRow(z, xs[i], ys);
      if i > 0 { assert xs[1..][i - 1] == xs[i]; }
    }
    if InRows(z, xs[1..], ys) {
      var i :| 0 <= i < |xs| - 1 && InRow(z, xs[1..][i], ys);
      assert xs[i + 1] == xs[1..][i];
    }
  }

  /** The union of these members. */
  function UnionOf(common: seq<TypeTree>): TypeTree {
    if common == [] then Leaf(IllFormed) else if |common| == 1 then common[0] else Node(Union, common)
  }

  /** The intersection of two unions is the union of the well-formed intersections of their
      members, each once and in increasing order. */
  lemma {:induction false} UnionsMeetInOrder(a: TypeTree, b: TypeTree)
    requires Reducible(a) && Reducible(b) && a.op.Union? && b.op.Union? && !Inherit(a, b) && !Inherit(b, a)
    ensures ReducibleAll(a.kids) && ReducibleAll(b.kids)
    ensures exists common :: Ascending(common) && (forall z :: z in common <==> InRows(z, a.kids, b.kids))
                             && Intersect(a, b) == UnionOf(common)
  {
    RowsAreExact(a.kids, b.kids, []);
    var common := IntersectRows(a.kids, b.kids, []);
    assert forall z :: z in common <==> InRows(z, a.kids, b.kids);
    UnionsIntersect(a, b);
  }

  lemma {:induction false} UnionsIntersect(a: TypeTree, b: TypeTree)
    requires Reducible(a) && Reducible(b) && a.op.Union? && b.op.Union? && !Inherit(a, b) && !Inherit(b, a)
    ensures ReducibleAll(a.kids) && ReducibleAll(b.kids) && Intersect(a, b) == UnionOf(IntersectRows(a.kids, b.kids, []))
  {
  }
}
