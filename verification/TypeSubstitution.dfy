/** What inheritance of function types is for: a function may be put where a function
    of a type above its own is applied. */
module TypeSubstitution {
  import opened Options
  import opened Trees
  import opened TypeTrees
  import opened TypeReduce
  import opened TypeIntersection
  import opened TypeApplications

  /** A function type that is ready to be applied. */
  predicate IsFunction(f: TypeTree) { Normal(f) && f.op.Lambda? && VarargLast(f.kids) }

  /** As many arguments as f takes, each inheriting from what it is checked against. */
  ghost predicate Fit(xs: seq<TypeTree>, f: TypeTree)
    requires IsFunction(f)
  {
    && ShapedAll(xs) && ShapedAll(f.kids) && Takes(f.kids, |xs|)
    && forall i | 0 <= i < |xs| :: Inherit(xs[i], WantedAt(f.kids, i))
  }

  /** Functions of equally many inputs, the last of which both repeat or neither does. */
  predicate Alike(f: TypeTree, g: TypeTree) {
    |f.kids| == |g.kids| && Repeated(f.kids) == Repeated(g.kids)
  }

  function Applied(f: TypeTree, applied: seq<TypeTree>): TypeTree { Node(Application, [f] + applied) }

  lemma {:induction false} PartsAreShaped(f: TypeTree)
    requires IsFunction(f)
    ensures Shaped(f) && ShapedAll(f.kids) && NormalAll(f.kids) && Reducible(f) && ReducibleAll(f.kids)
  {
    ReduceNormal(f, []);
    NormalParams(f.kids);
  }

  /** What the function above checks an argument against inherits from what the function
      below does. */
  lemma {:induction false} WantsMore(f: TypeTree, g: TypeTree, i: nat)
    requires IsFunction(f) && IsFunction(g) && Alike(f, g) && Inherit(f, g) && NoUnknownParameter(g)
    requires ShapedAll(f.kids) && ShapedAll(g.kids) && (i < |g.kids| - 1 || Repeated(g.kids))
    ensures Inherit(WantedAt(g.kids, i), WantedAt(f.kids, i)) && NoUnknownParameter(WantedAt(g.kids, i))
  {
    var k := if i < |g.kids| - 1 then i else |g.kids| - 2;
    assert Inherit(g.kids[k], f.kids[k]) && NoUnknownParameter(g.kids[k]);
    if Repeated(g.kids) && i >= |g.kids| - 2 {
      assert g.kids[k].op.ArgList? && f.kids[k].op.ArgList?;
      assert Inherit(g.kids[k].kids[0], f.kids[k].kids[0]);
    }
  }

  lemma {:induction false} FitsBelow(f: TypeTree, g: TypeTree, xs: seq<TypeTree>)
    requires IsFunction(f) && IsFunction(g) && Alike(f, g) && Inherit(f, g) && NoUnknownParameter(g) && Fit(xs, g)
    ensures Fit(xs, f)
  {
    PartsAreShaped(f);
    forall i | 0 <= i < |xs| ensures Inherit(xs[i], WantedAt(f.kids, i)) {
      WantsMore(f, g, i);
      InheritTransitive(xs[i], WantedAt(g.kids, i), WantedAt(f.kids, i));
    }
  }

  /** The types a function checks its arguments against fit it themselves. */
  lemma {:induction false} OwnInputsFit(g: TypeTree)
    requires IsFunction(g) && WellFormed(g)
    ensures ShapedAll(g.kids) && Takes(g.kids, |g.kids| - 1) && Fit(Wanteds(g.kids, |g.kids| - 1), g)
  {
    PartsAreShaped(g);
    var n := |g.kids| - 1;
    forall i | 0 <= i < n ensures Inherit(WantedAt(g.kids, i), WantedAt(g.kids, i)) {
      NormalParts(g.kids[i]);
      InheritReflexive(WantedAt(g.kids, i));
    }
  }

  /** Inheritance of function types is substitution: f inherits from g if and only if its
      result inherits from that of g and whatever fits g fits f. */
  lemma {:induction false} InheritIsSubstitution(f: TypeTree, g: TypeTree)
    requires IsFunction(f) && IsFunction(g) && Alike(f, g) && WellFormed(g) && NoUnknownParameter(g)
    ensures Shaped(f) && Shaped(g) && ShapedAll(f.kids) && ShapedAll(g.kids)
    ensures Inherit(f, g) <==> Inherit(Last(f.kids), Last(g.kids)) && forall xs | Fit(xs, g) :: Fit(xs, f)
  {
    PartsAreShaped(f);
    PartsAreShaped(g);
    if Inherit(f, g) {
      forall xs | Fit(xs, g) ensures Fit(xs, f) { FitsBelow(f, g, xs); }
    }
    if Inherit(Last(f.kids), Last(g.kids)) && forall xs | Fit(xs, g) :: Fit(xs, f) { SubstitutionInherits(f, g); }
  }

  lemma {:induction false} SubstitutionInherits(f: TypeTree, g: TypeTree)
    requires IsFunction(f) && IsFunction(g) && Alike(f, g) && WellFormed(g) && Shaped(f) && Shaped(g)
    requires ShapedAll(f.kids) && ShapedAll(g.kids)
    requires Inherit(Last(f.kids), Last(g.kids)) && forall xs | Fit(xs, g) :: Fit(xs, f)
    ensures Inherit(f, g)
  {
    OwnInputsFit(g);
    var xs := Wanteds(g.kids, |g.kids| - 1);
    assert Fit(xs, f);
    forall i | 0 <= i < |g.kids| - 1 ensures Inherit(g.kids[i], f.kids[i]) {
      assert Inherit(xs[i], WantedAt(f.kids, i));
      if g.kids[i].op.ArgList? { assert f.kids[i].op.ArgList?; }
    }
  }

  /** Arguments that fit leave nothing open: the outcome is the result. */
  lemma {:induction false} FittingApplication(f: TypeTree, applied: seq<TypeTree>, args: seq<TypeTree>)
    requires IsFunction(f) && ReducibleAll(applied) && ArgTypes(args) && applied != [] && Fit(ReduceAll(applied, args), f)
    ensures Reducible(Applied(f, applied)) && Reduce(Applied(f, applied), args) == Last(f.kids)
  {
    var xs := ReduceAll(applied, args);
    PartsAreShaped(f);
    ApplicationInOrder(f.kids, applied, args);
    AcceptedOutright(xs, Wanteds(f.kids, |xs|));
    assert f == Node(Lambda, f.kids);
  }

  lemma {:induction false} AcceptedOutright(xs: seq<TypeTree>, ws: seq<TypeTree>)
    requires ReducibleAll(xs) && ShapedAll(ws) && |xs| == |ws| && forall i | 0 <= i < |xs| :: Inherit(xs[i], ws[i])
    ensures AllOpen(xs, ws) == Some([])
    decreases xs
  {
    if xs != [] {
      AcceptedOutright(xs[1..], ws[1..]);
      assert Accept(xs[0], ws[0]) == Some([]);
      assert AllOpen(xs, ws).value == [] + AllOpen(xs[1..], ws[1..]).value;
    }
  }

  /** So where g is applied f may be applied instead, with a result that inherits. */
  lemma {:induction false} SubtypeApplies(f: TypeTree, g: TypeTree, applied: seq<TypeTree>, args: seq<TypeTree>)
    requires IsFunction(f) && IsFunction(g) && Alike(f, g) && Inherit(f, g) && NoUnknownParameter(g)
    requires ReducibleAll(applied) && ArgTypes(args) && applied != [] && Fit(ReduceAll(applied, args), g)
    ensures Reducible(Applied(f, applied)) && Reducible(Applied(g, applied))
    ensures Inherit(Reduce(Applied(f, applied), args), Reduce(Applied(g, applied), args))
  {
    FitsBelow(f, g, ReduceAll(applied, args));
    FittingApplication(f, applied, args);
    FittingApplication(g, applied, args);
  }

  /** Why both must repeat their last input: a function of one input of any type inherits
      from one of any number of contin inputs, but does not take two. */
  lemma {:induction false} UnknownBelowRepeated()
    ensures var f, g := Node(Lambda, [Leaf(Unknown), Leaf(Contin)]), Node(Lambda, [Node(ArgList, [Leaf(Contin)]), Leaf(Contin)]);
            && IsFunction(f) && IsFunction(g) && NoUnknownParameter(g) && Inherit(f, g)
            && Fit([Leaf(Contin), Leaf(Contin)], g) && !Fit([Leaf(Contin), Leaf(Contin)], f)
  {
    var f, g := Node(Lambda, [Leaf(Unknown), Leaf(Contin)]), Node(Lambda, [Node(ArgList, [Leaf(Contin)]), Leaf(Contin)]);
    assert Normal(g.kids[0].kids[0]) && Normal(g.kids[0]) && Normal(f.kids[0]);
    assert Inherit(g.kids[0], f.kids[0]) && Inherit(Last(f.kids), Last(g.kids));
  }
}
