/** When two types have a type in common, the intersection is the greatest one. */
module TypeMeets {
  import opened Trees
  import opened TypeTrees
  import opened TypeReduce
  import opened TypeIntersection

  predicate Elementary(t: TypeTree) {
    !t.op.Operator() && t.op != IllFormed && !t.op.Argument?
  }

  /** Types that the intersection compares part by part: never a union with a lambda,
      nor two argument lists.  The results of lambdas are reduced once more, where a
      union must not lose a member. */
  ghost predicate Matched(a: TypeTree, b: TypeTree)
    decreases Size(a) + Size(b)
  {
    || Elementary(a) || Elementary(b)
    || (a.op.Union? && b.op.Union? && forall i, j | 0 <= i < |a.kids| && 0 <= j < |b.kids| :: Matched(a.kids[i], b.kids[j]))
    || (a.op.Lambda? && b.op.Lambda? && a.kids != [] && b.kids != [] &&
        (|a.kids| == |b.kids| ==> Matched(Last(a.kids), Last(b.kids)) && PrunesSafely(Last(a.kids), Last(b.kids))))
  }

  ghost predicate PrunesSafely(a: TypeTree, b: TypeTree) {
    a.op.Union? && b.op.Union? ==> NoUnknownParameter(a) && NoUnknownParameter(b)
  }

  // ---------------------------------------------------------------- nothing found is lost

  lemma {:induction false} RowKeeps(x: TypeTree, ys: seq<TypeTree>, found: seq<TypeTree>)
    requires Reducible(x) && ReducibleAll(ys) && ReducibleAll(found)
    ensures forall z | z in found :: z in IntersectRow(x, ys, found)
    ensures forall j | 0 <= j < |ys| && WellFormed(Intersect(x, ys[j])) :: Intersect(x, ys[j]) in IntersectRow(x, ys, found)
    decreases ys
  {
    if ys != [] {
      var z := Intersect(x, ys[0]);
      var found' := if WellFormed(z) then Insert(found, z) else found;
      assert forall i | 0 <= i < |found'| :: found'[i] in found || found'[i] == z;
      RowKeeps(x, ys[1..], found');
    }
  }

  lemma {:induction false} RowsKeep(xs: seq<TypeTree>, ys: seq<TypeTree>, found: seq<TypeTree>, i: nat, j: nat)
    requires ReducibleAll(xs) && ReducibleAll(ys) && ReducibleAll(found)
    requires j < |ys|
    ensures forall z | z in found :: z in IntersectRows(xs, ys, found)
    ensures i < |xs| && WellFormed(Intersect(xs[i], ys[j])) ==> Intersect(xs[i], ys[j]) in IntersectRows(xs, ys, found)
    decreases xs
  {
    if xs != [] {
      RowKeeps(xs[0], ys, found);
      RowsKeep(xs[1..], ys, IntersectRow(xs[0], ys, found), if i > 0 then i - 1 else 0, j);
    }
  }

  lemma {:induction false} BelowUnionOf(x: TypeTree, z: TypeTree, common: seq<TypeTree>)
    requires Shaped(x) && Shaped(z) && Inherit(x, z) && z in common && ShapedAll(common)
    ensures |common| == 1 ==> common[0] == z
    ensures Inherit(x, Node(Union, common))
  {
    var k :| 0 <= k < |common| && common[k] == z;
    InheritMember(x, Node(Union, common), k);
  }

  // ---------------------------------------------------------------- well-formed intersections

  lemma {:induction false} ReduceTidyIsWellFormed(t: TypeTree)
    requires Tidy(t) && WellFormed(t)
    ensures Reducible(t) && Normal(Reduce(t, [])) && WellFormed(Reduce(t, []))
  {
    TidyParts(t);
    ReduceTidy(t);
    if Normal(t) {
      ReduceNormal(t, []);
    } else {
      var rs := ReduceAll(t.kids, []);
      forall i | 0 <= i < |rs| ensures WellFormed(rs[i]) { ReduceTidyIsWellFormed(t.kids[i]); }
      UniteIsWellFormed(rs);
    }
  }

  lemma {:induction false} UniteIsWellFormed(ts: seq<TypeTree>)
    requires ReducibleAll(ts) && ts != [] && forall i | 0 <= i < |ts| :: WellFormed(ts[i])
    ensures WellFormed(Unite(ts, []))
  {
    var left := Prune(ts, 0);
    forall k | 0 <= k < |left| ensures WellFormed(left[k]) { assert left[k] in left; }
  }

  /** The intersection of lambdas is well formed where that of their results is. */
  lemma {:induction false} MeetIsWellFormed(xs: seq<TypeTree>, ys: seq<TypeTree>, out: TypeTree)
    requires |xs| == |ys| >= 2 && ReducibleAll(xs) && ReducibleAll(ys) && Reducible(out) && Tidy(out)
    requires forall i | 0 <= i < |xs| :: Normal(xs[i]) && WellFormed(xs[i]) && Normal(ys[i]) && WellFormed(ys[i])
    ensures WellFormed(MeetLambdas(xs, ys, out)) <==> WellFormed(out)
  {
    MeetLambdasParts(xs, ys, out);
    ReduceTidy(out);
    if WellFormed(out) { ReduceTidyIsWellFormed(out); }
    var r, n := MeetLambdas(xs, ys, out), |xs| - 1;
    forall i | 0 <= i < n ensures WellFormed(r.kids[i]) {
      PairIsWellFormed(xs[i], ys[i]);
    }
    assert WellFormed(r) <==> WellFormed(r.kids[n]);
  }

  lemma {:induction false} PairIsWellFormed(p: TypeTree, q: TypeTree)
    requires Normal(p) && Normal(q) && Reducible(p) && Reducible(q) && WellFormed(p) && WellFormed(q)
    ensures Reducible(Node(Union, [p, q])) && WellFormed(Reduce(Node(Union, [p, q]), []))
  {
    PairReduces(p, q);
  }

  /** Exactly when the intersection of lambdas is well formed. */
  lemma {:induction false} LambdasMeetExactly(a: TypeTree, b: TypeTree)
    requires Normal(a) && WellFormed(a) && Normal(b) && WellFormed(b) && a.op.Lambda? && b.op.Lambda?
    ensures Reducible(a) && Reducible(b) && Reducible(Last(a.kids)) && Reducible(Last(b.kids))
    ensures WellFormed(Intersect(a, b)) <==>
            Inherit(a, b) || Inherit(b, a) || (|a.kids| == |b.kids| && WellFormed(Intersect(Last(a.kids), Last(b.kids))))
  {
    ReduceNormal(a, []);
    ReduceNormal(b, []);
    if !Inherit(a, b) && !Inherit(b, a) { LambdasIntersect(a, b); }
    if |a.kids| == |b.kids| {
      IntersectInheritsBoth(Last(a.kids), Last(b.kids));
      MeetIsWellFormed(a.kids, b.kids, Intersect(Last(a.kids), Last(b.kids)));
    }
  }

  // ---------------------------------------------------------------- no unknown parameter comes in

  lemma {:induction false} PruneKeepsKnown(ts: seq<TypeTree>)
    requires ReducibleAll(ts) && ts != [] && forall i | 0 <= i < |ts| :: NoUnknownParameter(ts[i])
    ensures NoUnknownParameter(Unite(ts, []))
  {
    var left := Prune(ts, 0);
    forall k | 0 <= k < |left| ensures NoUnknownParameter(left[k]) { assert left[k] in left; }
  }

  lemma {:induction false} ReduceKeepsKnown(t: TypeTree)
    requires Tidy(t) && NoUnknownParameter(t)
    ensures Reducible(t) && NoUnknownParameter(Reduce(t, []))
  {
    TidyParts(t);
    if Normal(t) {
      ReduceNormal(t, []);
    } else {
      var rs := ReduceAll(t.kids, []);
      forall i | 0 <= i < |rs| ensures NoUnknownParameter(rs[i]) { ReduceKeepsKnown(t.kids[i]); }
      PruneKeepsKnown(rs);
    }
  }

  lemma {:induction false} IntersectKeepsKnown(a: TypeTree, b: TypeTree)
    requires Tidy(a) && WellFormed(a) && Tidy(b) && WellFormed(b) && Reducible(a) && Reducible(b)
    requires NoUnknownParameter(a) && NoUnknownParameter(b)
    ensures NoUnknownParameter(Intersect(a, b))
    decreases Size(a) + Size(b), 2
  {
    if Inherit(a, b) || Inherit(b, a) {
    } else if a.op.Union? && b.op.Union? {
      RowsKeepKnown(a, b, a.kids, b.kids, []);
    } else if a.op.Lambda? && b.op.Lambda? && |a.kids| == |b.kids| {
      IntersectKeepsKnown(Last(a.kids), Last(b.kids));
      IntersectInheritsBoth(Last(a.kids), Last(b.kids));
      MeetKeepsKnown(a.kids, b.kids, Intersect(Last(a.kids), Last(b.kids)));
    }
  }

  lemma {:induction false} MeetKeepsKnown(xs: seq<TypeTree>, ys: seq<TypeTree>, out: TypeTree)
    requires |xs| == |ys| >= 2 && ReducibleAll(xs) && ReducibleAll(ys) && Reducible(out) && Tidy(out) && NoUnknownParameter(out)
    requires forall i | 0 <= i < |xs| :: Normal(xs[i]) && Normal(ys[i]) && NoUnknownParameter(xs[i]) && NoUnknownParameter(ys[i])
    requires forall i | 0 <= i < |xs| - 1 :: !xs[i].op.Unknown? && !ys[i].op.Unknown?
    ensures NoUnknownParameter(MeetLambdas(xs, ys, out))
  {
    MeetLambdasParts(xs, ys, out);
    ReduceKeepsKnown(out);
    var r := MeetLambdas(xs, ys, out);
    forall i | 0 <= i < |xs| - 1 ensures NoUnknownParameter(r.kids[i]) && !r.kids[i].op.Unknown? {
      PairReduces(xs[i], ys[i]);
    }
  }

  lemma {:induction false} RowsKeepKnown(a: TypeTree, b: TypeTree, xs: seq<TypeTree>, ys: seq<TypeTree>, found: seq<TypeTree>)
    requires TidyMembers(xs) && TidyMembers(ys) && ReducibleAll(xs) && ReducibleAll(ys) && ReducibleAll(found)
    requires Size(a) + Size(b) > SizeAll(xs) + SizeAll(ys)
    requires KnownAll(xs) && KnownAll(ys) && KnownAll(found)
    ensures KnownAll(IntersectRows(xs, ys, found))
    decreases Size(a) + Size(b), 1, xs
  {
    if xs != [] {
      RowKeepsKnown(a, b, xs[0], ys, found);
      RowsKeepKnown(a, b, xs[1..], ys, IntersectRow(xs[0], ys, found));
    }
  }

  predicate KnownAll(ts: seq<TypeTree>) { forall i | 0 <= i < |ts| :: NoUnknownParameter(ts[i]) }

  predicate TidyMembers(ts: seq<TypeTree>) { forall i | 0 <= i < |ts| :: Tidy(ts[i]) && WellFormed(ts[i]) }

  lemma {:induction false} RowKeepsKnown(a: TypeTree, b: TypeTree, x: TypeTree, ys: seq<TypeTree>, found: seq<TypeTree>)
    requires Tidy(x) && WellFormed(x) && TidyMembers(ys) && Reducible(x) && ReducibleAll(ys) && ReducibleAll(found)
    requires Size(a) + Size(b) > Size(x) + SizeAll(ys)
    requires NoUnknownParameter(x) && KnownAll(ys) && KnownAll(found)
    ensures KnownAll(IntersectRow(x, ys, found))
    decreases Size(a) + Size(b), 0, ys
  {
    if ys != [] {
      IntersectKeepsKnown(x, ys[0]);
      var z := Intersect(x, ys[0]);
      var found' := if WellFormed(z) then Insert(found, z) else found;
      forall i | 0 <= i < |found'| ensures NoUnknownParameter(found'[i]) && Reducible(found'[i]) {
        assert found'[i] in found || found'[i] == z;
      }
      RowKeepsKnown(a, b, x, ys[1..], found');
    }
  }

  // ---------------------------------------------------------------- the greatest common type

  /** Reducing a tidy tree without unknown parameters keeps it above whatever is below it. */
  lemma {:induction false} ReduceStaysAbove(t: TypeTree, x: TypeTree)
    requires Tidy(t) && WellFormed(t) && (Normal(t) || NoUnknownParameter(t)) && Shaped(t) && Shaped(x) && Inherit(x, t)
    ensures Reducible(t) && Inherit(x, Reduce(t, []))
    decreases t, x
  {
    TidyParts(t);
    if Normal(t) {
      ReduceNormal(t, []);
    } else if x.op.Union? {
      forall k | 0 <= k < |x.kids| ensures Inherit(x.kids[k], Reduce(t, [])) {
        ReduceStaysAbove(t, x.kids[k]);
      }
    } else {
      var i :| 0 <= i < |t.kids| && Inherit(x, t.kids[i]);
      ReduceStaysAbove(t.kids[i], x);
      var rs := ReduceAll(t.kids, []);
      forall k | 0 <= k < |rs| ensures Normal(rs[k]) && WellFormed(rs[k]) && NoUnknownParameter(rs[k]) {
        ReduceTidyIsWellFormed(t.kids[k]);
        ReduceKeepsKnown(t.kids[k]);
      }
      UniteStaysAbove(rs, i, x);
    }
  }

  lemma {:induction false} UniteStaysAbove(rs: seq<TypeTree>, i: nat, x: TypeTree)
    requires ReducibleAll(rs) && i < |rs| && Shaped(x) && Inherit(x, rs[i])
    requires forall k | 0 <= k < |rs| :: Normal(rs[k]) && WellFormed(rs[k]) && NoUnknownParameter(rs[k])
    ensures Inherit(x, Unite(rs, []))
  {
    forall k | 0 <= k < |rs| && Inherit(x, rs[i]) && Inherit(rs[i], rs[k]) ensures Inherit(x, rs[k]) {
      InheritTransitive(x, rs[i], rs[k]);
    }
    assert ChainsFrom(x, rs) by {
      forall j, k | 0 <= j < |rs| && 0 <= k < |rs| && Inherit(x, rs[j]) && Inherit(rs[j], rs[k]) ensures Inherit(x, rs[k]) {
        InheritTransitive(x, rs[j], rs[k]);
      }
    }
    PruneCovers(rs, 0, x);
    UniteKeepsMember(rs, x, []);
  }

  /** What has a type below it in common with an elementary type is comparable to it. */
  lemma {:induction false} ElementaryIsComparable(e: TypeTree, b: TypeTree, x: TypeTree)
    requires Elementary(e) && Shaped(e) && Tidy(b) && WellFormed(b) && Shaped(b)
    requires Shaped(x) && !x.op.Union? && Inherit(x, e) && Inherit(x, b)
    ensures Inherit(e, b) || Inherit(b, e)
  {
    if e.op.Unknown? {
      UnknownIsTop(b, e);
    } else {
      assert x == e;
    }
  }

  lemma {:induction false} UnknownIsTop(b: TypeTree, e: TypeTree)
    requires Shaped(b) && WellFormed(b) && Tidy(b) && e == Leaf(Unknown)
    ensures Inherit(b, e)
  {
    TidyParts(b);
    if b.op.Union? {
      forall i | 0 <= i < |b.kids| ensures Inherit(b.kids[i], e) { UnknownIsTop(b.kids[i], e); }
    }
  }

  /** The reduced union of two parameters is below what both are below, and unknown
      where one of them is. */
  lemma {:induction false} PairBelow(p: TypeTree, q: TypeTree, z: TypeTree)
    requires Normal(p) && WellFormed(p) && Normal(q) && WellFormed(q) && Reducible(p) && Reducible(q) && Shaped(z)
    requires (Inherit(p, z) || p.op.Unknown?) && (Inherit(q, z) || q.op.Unknown?)
    ensures Reducible(Node(Union, [p, q]))
    ensures var u := Reduce(Node(Union, [p, q]), []); Inherit(u, z) || u.op.Unknown?
  {
    PairReduces(p, q);
    if p.op.Unknown? {
      UnknownIsTop(q, p);
      if Inherit(p, q) { OnlyUnknownIsAbove(q, p); }
    } else if q.op.Unknown? {
      UnknownIsTop(p, q);
    } else if !Inherit(p, q) && !Inherit(q, p) {
      assert Inherit(Node(Union, [p, q]), z);
    }
  }

  lemma {:induction false} OnlyUnknownIsAbove(q: TypeTree, e: TypeTree)
    requires Normal(q) && WellFormed(q) && e == Leaf(Unknown) && Inherit(e, q)
    ensures q == e
  {
    if q.op.Union? {
      var i :| 0 <= i < |q.kids| && Inherit(e, q.kids[i]);
      OnlyUnknownIsAbove(q.kids[i], e);
      var j := if i == 0 then 1 else 0;
      UnknownIsTop(q.kids[j], e);
      assert false;
    }
  }

  /** Where two types match and something is below both, their intersection is well
      formed and above it. */
  lemma {:induction false} IntersectIsGreatest(a: TypeTree, b: TypeTree, x: TypeTree)
    requires Tidy(a) && WellFormed(a) && Tidy(b) && WellFormed(b) && Reducible(a) && Reducible(b) && Matched(a, b)
    requires Shaped(x) && Inherit(x, a) && Inherit(x, b)
    ensures WellFormed(Intersect(a, b)) && Inherit(x, Intersect(a, b))
    decreases Size(a) + Size(b), 1, x
  {
    if x.op.Union? {
      forall k | 0 <= k < |x.kids| ensures WellFormed(Intersect(a, b)) && Inherit(x.kids[k], Intersect(a, b)) {
        IntersectIsGreatest(a, b, x.kids[k]);
      }
      assert Inherit(x.kids[0], Intersect(a, b));
    } else if Inherit(a, b) || Inherit(b, a) {
    } else if Elementary(a) {
      ElementaryIsComparable(a, b, x);
      assert false;
    } else if Elementary(b) {
      ElementaryIsComparable(b, a, x);
      assert false;
    } else if a.op.Union? {
      UnionsMeet(a, b, x);
    } else {
      LambdasMeet(a, b, x);
    }
  }

  lemma {:induction false} UnionsMeet(a: TypeTree, b: TypeTree, x: TypeTree)
    requires Tidy(a) && WellFormed(a) && Tidy(b) && WellFormed(b) && Reducible(a) && Reducible(b) && Matched(a, b)
    requires a.op.Union? && b.op.Union? && !Inherit(a, b) && !Inherit(b, a)
    requires Shaped(x) && !x.op.Union? && Inherit(x, a) && Inherit(x, b)
    ensures WellFormed(Intersect(a, b)) && Inherit(x, Intersect(a, b))
    decreases Size(a) + Size(b), 0, x
  {
    var i :| 0 <= i < |a.kids| && Inherit(x, a.kids[i]);
    var j :| 0 <= j < |b.kids| && Inherit(x, b.kids[j]);
    MembersMatch(a, b, i, j);
    IntersectIsGreatest(a.kids[i], b.kids[j], x);
    FoundInRows(a, b, i, j, x);
    UnionsIntersect(a, b);
  }

  lemma {:induction false} MembersMatch(a: TypeTree, b: TypeTree, i: nat, j: nat)
    requires Tidy(a) && WellFormed(a) && Tidy(b) && WellFormed(b) && Reducible(a) && Reducible(b) && Matched(a, b)
    requires a.op.Union? && b.op.Union? && i < |a.kids| && j < |b.kids|
    ensures Tidy(a.kids[i]) && WellFormed(a.kids[i]) && Tidy(b.kids[j]) && WellFormed(b.kids[j])
    ensures Reducible(a.kids[i]) && Reducible(b.kids[j]) && Matched(a.kids[i], b.kids[j])
    ensures Size(a.kids[i]) + Size(b.kids[j]) < Size(a) + Size(b)
  {
    TidyMember(a, i);
    TidyMember(b, j);
  }

  lemma {:induction false} UnionsIntersect(a: TypeTree, b: TypeTree)
    requires Reducible(a) && Reducible(b) && a.op.Union? && b.op.Union? && !Inherit(a, b) && !Inherit(b, a)
    ensures var common := IntersectRows(a.kids, b.kids, []);
            Intersect(a, b) == if common == [] then Leaf(IllFormed) else if |common| == 1 then common[0] else Node(Union, common)
  {
  }

  lemma {:induction false} LambdasIntersect(a: TypeTree, b: TypeTree)
    requires Reducible(a) && Reducible(b) && a.op.Lambda? && b.op.Lambda? && !Inherit(a, b) && !Inherit(b, a)
    ensures Reducible(Last(a.kids)) && Reducible(Last(b.kids)) && Size(Last(a.kids)) + Size(Last(b.kids)) < Size(a) + Size(b)
    ensures Intersect(a, b) == if |a.kids| != |b.kids| then Leaf(IllFormed)
                               else MeetLambdas(a.kids, b.kids, Intersect(Last(a.kids), Last(b.kids)))
  {
  }

  /** The intersection of two members is among those found. */
  lemma {:induction false} FoundInRows(a: TypeTree, b: TypeTree, i: nat, j: nat, x: TypeTree)
    requires Tidy(a) && WellFormed(a) && Tidy(b) && WellFormed(b) && Reducible(a) && Reducible(b)
    requires a.op.Union? && b.op.Union? && i < |a.kids| && j < |b.kids| && Reducible(a.kids[i]) && Reducible(b.kids[j])
    requires var z := Intersect(a.kids[i], b.kids[j]); Shaped(x) && WellFormed(z) && Inherit(x, z)
    ensures var common := IntersectRows(a.kids, b.kids, []);
            && common != [] && ShapedAll(common) && (|common| == 1 ==> WellFormed(common[0]) && Inherit(x, common[0]))
            && WellFormed(Node(Union, common)) && Inherit(x, Node(Union, common))
  {
    RowsKeep(a.kids, b.kids, [], i, j);
    CommonRows(a, b, a.kids, b.kids, []);
    InCommon(a, b, x, Intersect(a.kids[i], b.kids[j]), IntersectRows(a.kids, b.kids, []));
  }

  lemma {:induction false} InCommon(a: TypeTree, b: TypeTree, x: TypeTree, z: TypeTree, common: seq<TypeTree>)
    requires Shaped(a) && Shaped(b) && Shaped(x) && Shaped(z) && Inherit(x, z) && z in common && CommonAll(common, a, b)
    ensures ShapedAll(common) && (|common| == 1 ==> WellFormed(common[0]) && Inherit(x, common[0]))
    ensures WellFormed(Node(Union, common)) && Inherit(x, Node(Union, common))
  {
    forall k | 0 <= k < |common| ensures Shaped(common[k]) && WellFormed(common[k]) { assert Common(common[k], a, b); }
    BelowUnionOf(x, z, common);
  }

  lemma {:induction false} LambdasMeet(a: TypeTree, b: TypeTree, x: TypeTree)
    requires Tidy(a) && WellFormed(a) && Tidy(b) && WellFormed(b) && Reducible(a) && Reducible(b) && Matched(a, b)
    requires a.op.Lambda? && b.op.Lambda? && !Inherit(a, b) && !Inherit(b, a)
    requires Shaped(x) && !x.op.Union? && Inherit(x, a) && Inherit(x, b)
    ensures WellFormed(Intersect(a, b)) && Inherit(x, Intersect(a, b))
    decreases Size(a) + Size(b), 0, x
  {
    var la, lb := Last(a.kids), Last(b.kids);
    LambdasIntersect(a, b);
    IntersectIsGreatest(la, lb, Last(x.kids));
    ResultStaysAbove(la, lb, Last(x.kids));
    MeetIsAbove(a, b, Intersect(la, lb), x);
    MeetIsWellFormed(a.kids, b.kids, Intersect(la, lb));
  }

  lemma {:induction false} ResultStaysAbove(a: TypeTree, b: TypeTree, x: TypeTree)
    requires Normal(a) && WellFormed(a) && Normal(b) && WellFormed(b) && Reducible(a) && Reducible(b) && PrunesSafely(a, b)
    requires Shaped(x) && WellFormed(Intersect(a, b)) && Inherit(x, Intersect(a, b))
    ensures Tidy(Intersect(a, b)) && Inherit(x, Reduce(Intersect(a, b), []))
  {
    IntersectInheritsBoth(a, b);
    ResultPrunesSafely(a, b);
    ReduceStaysAbove(Intersect(a, b), x);
  }

  lemma {:induction false} ResultPrunesSafely(a: TypeTree, b: TypeTree)
    requires Normal(a) && WellFormed(a) && Normal(b) && WellFormed(b) && Reducible(a) && Reducible(b) && PrunesSafely(a, b)
    ensures Normal(Intersect(a, b)) || NoUnknownParameter(Intersect(a, b))
  {
    IntersectInheritsBoth(a, b);
    if a.op.Union? && b.op.Union? { IntersectKeepsKnown(a, b); }
  }

  /** The parameters are contravariant: x takes what both lambdas take, and so takes
      what their intersection takes. */
  lemma {:induction false} MeetIsAbove(a: TypeTree, b: TypeTree, out: TypeTree, x: TypeTree)
    requires Normal(a) && WellFormed(a) && Normal(b) && WellFormed(b) && Reducible(a) && Reducible(b)
    requires a.op.Lambda? && b.op.Lambda? && |a.kids| == |b.kids| && Reducible(out)
    requires Shaped(x) && x.op.Lambda? && Inherit(x, a) && Inherit(x, b) && Inherit(Last(x.kids), Reduce(out, []))
    ensures Inherit(x, MeetLambdas(a.kids, b.kids, out))
  {
    MeetLambdasParts(a.kids, b.kids, out);
    var r := MeetLambdas(a.kids, b.kids, out);
    forall i | 0 <= i < |r.kids| - 1 ensures Inherit(r.kids[i], x.kids[i]) || r.kids[i].op.Unknown? {
      PairBelow(a.kids[i], b.kids[i], x.kids[i]);
    }
  }

  /** Exactly when matched types have a well-formed intersection: when there is a type
      below both. */
  lemma {:induction false} MeetsExactly(a: TypeTree, b: TypeTree)
    requires Tidy(a) && WellFormed(a) && Tidy(b) && WellFormed(b) && Reducible(a) && Reducible(b) && Matched(a, b)
    ensures WellFormed(Intersect(a, b)) <==> exists x :: Shaped(x) && Inherit(x, a) && Inherit(x, b)
  {
    IntersectInheritsBoth(a, b);
    var r := Intersect(a, b);
    if WellFormed(r) { assert Shaped(r) && Inherit(r, a) && Inherit(r, b); }
    if x :| Shaped(x) && Inherit(x, a) && Inherit(x, b) { IntersectIsGreatest(a, b, x); }
  }
}
