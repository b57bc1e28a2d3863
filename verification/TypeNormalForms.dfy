/** When one pass of the reduction leaves nothing to reduce. */
module TypeNormalForms {
  import opened Options
  import opened Trees
  import opened TypeTrees
  import opened TypeReduce
  import opened TypeIntersection
  import opened TypeApplications
  import opened Combo
  import opened TypeInference

  /** Wherever a function is applied, its result is in normal form. */
  predicate Prepared(t: TypeTree) {
    && Reducible(t)
    && (t.op.Application? && |t.kids| >= 2 && t.kids[0].op.Lambda? ==> Normal(Last(t.kids[0].kids)))
    && forall i | 0 <= i < |t.kids| :: Prepared(t.kids[i])
  }

  predicate PreparedAll(ts: seq<TypeTree>) { forall i | 0 <= i < |ts| :: Prepared(ts[i]) }

  /** One pass leaves a normal form of a prepared tree. */
  lemma {:induction false} ReduceIsNormal(t: TypeTree, args: seq<TypeTree>)
    requires Prepared(t) && ArgTypes(args) && NormalAll(args)
    ensures Normal(Reduce(t, args))
    decreases t, 2
  {
    match t.op
    case Lambda =>
      AllReduceToNormal(t.kids, args);
      LambdaIsNormal(t, args);
    case Union =>
      AllReduceToNormal(t.kids, args);
      UnionIsNormal(t, args);
    case ArgList =>
      ReduceIsNormal(t.kids[0], args);
      ReduceNormalAll(Reduce(t.kids[0], args).kids, args);
      ListIsNormal(t, args);
    case Application =>
      if |t.kids| == 1 {
        ReduceIsNormal(t.kids[0], args);
      } else if t.kids[0].op.Lambda? {
        AllReduceToNormal(t.kids[1..], args);
        CallIsNormal(t, args);
      }
    case _ =>
  }

  lemma {:induction false} AllReduceToNormal(ts: seq<TypeTree>, args: seq<TypeTree>)
    requires PreparedAll(ts) && ArgTypes(args) && NormalAll(args)
    ensures ReducibleAll(ts) && NormalAll(ReduceAll(ts, args))
    decreases ts, 3
  {
    forall i | 0 <= i < |ts| ensures Normal(Reduce(ts[i], args)) { ReduceIsNormal(ts[i], args); }
  }

  lemma {:induction false} LambdaIsNormal(t: TypeTree, args: seq<TypeTree>)
    requires Reducible(t) && ArgTypes(args) && t.op.Lambda? && NormalAll(ReduceAll(t.kids, args))
    ensures Normal(Reduce(t, args))
  {
    assert ReduceAll(t.kids, args)[0] == Reduce(t.kids[0], args);
  }

  lemma {:induction false} UnionIsNormal(t: TypeTree, args: seq<TypeTree>)
    requires Reducible(t) && ArgTypes(args) && t.op.Union? && NormalAll(ReduceAll(t.kids, args))
    ensures Normal(Reduce(t, args))
  {
    UniteNormal(ReduceAll(t.kids, args));
    assert Unite(ReduceAll(t.kids, args), args) == Unite(ReduceAll(t.kids, args), []);
  }

  lemma {:induction false} ListIsNormal(t: TypeTree, args: seq<TypeTree>)
    requires Reducible(t) && ArgTypes(args) && t.op.ArgList? && Normal(Reduce(t.kids[0], args))
    ensures Normal(Reduce(t, args))
  {
    var top := Reduce(t.kids[0], args);
    forall i | 0 <= i < |top.kids| ensures ReducePreOrder(top.kids[i], args) == top.kids[i] { ReduceNormal(top.kids[i], args); }
    assert ReducePreOrderAll(top.kids, args) == top.kids;
    assert ReducePreOrder(t.kids[0], args) == top;
  }

  lemma {:induction false} CallIsNormal(t: TypeTree, args: seq<TypeTree>)
    requires Prepared(t) && ArgTypes(args) && t.op.Application? && |t.kids| >= 2 && t.kids[0].op.Lambda?
    requires ReducibleAll(t.kids[1..]) && NormalAll(ReduceAll(t.kids[1..], args))
    ensures Normal(Reduce(t, args))
  {
    var params, applied := t.kids[0].kids, t.kids[1..];
    assert Reducible(t.kids[0]);
    assert Reduce(t, args) == ReduceApplication(t, args);
    if Takes(params, |applied|) { ApplyIsNormal([], params, applied, Repeated(params), false, args); }
  }

  lemma {:induction false} ApplyIsNormal(done: seq<TypeTree>, params: seq<TypeTree>, applied: seq<TypeTree>,
                                         vararg: bool, reached: bool, args: seq<TypeTree>)
    requires ReducibleAll(done) && ReducibleAll(params) && ReducibleAll(applied) && ArgTypes(args)
    requires ApplyState(params, |applied|, vararg, reached)
    requires NormalAll(done) && Normal(Last(params)) && NormalAll(ReduceAll(applied, args))
    ensures Normal(Apply(done, params, applied, vararg, reached, args))
    decreases |applied|, 1
  {
    if applied == [] {
      var r := Last(params);
      assert (if vararg then params[1..] else params) == [r];
      ReduceNormal(r, args);
    } else {
      ApplyNextIsNormal(done, params, applied, vararg, reached || params[0].op.ArgList?, args);
    }
  }

  lemma {:induction false} ApplyNextIsNormal(done: seq<TypeTree>, params: seq<TypeTree>, applied: seq<TypeTree>,
                                             vararg: bool, reached: bool, args: seq<TypeTree>)
    requires ReducibleAll(done) && ReducibleAll(params) && ReducibleAll(applied) && ArgTypes(args)
    requires applied != [] && ApplyState(params, |applied|, vararg, reached) && reached == params[0].op.ArgList?
    requires NormalAll(done) && Normal(Last(params)) && NormalAll(ReduceAll(applied, args))
    ensures Normal(ApplyNext(done, params, applied, vararg, reached, args))
    decreases |applied|, 0
  {
    var a, p := Reduce(applied[0], args), Reduce(params[0], args);
    assert ReduceAll(applied, args)[0] == a;
    match Accept(a, Wanted(p, reached))
    case None =>
    case Some(open) =>
      RestReducesToNormal(applied, args);
      OpenIsNormal(done, a, Wanted(p, reached));
      RestIsApplied(done, params, applied, open, vararg, reached, args);
      ApplyIsNormal(done + open, Remaining(params, p, reached), applied[1..], vararg, reached, args);
  }

  lemma {:induction false} RestIsApplied(done: seq<TypeTree>, params: seq<TypeTree>, applied: seq<TypeTree>,
                                         open: seq<TypeTree>, vararg: bool, reached: bool, args: seq<TypeTree>)
    requires ReducibleAll(done) && ReducibleAll(params) && ReducibleAll(applied) && ArgTypes(args)
    requires applied != [] && ApplyState(params, |applied|, vararg, reached) && reached == params[0].op.ArgList?
    requires Accept(Reduce(applied[0], args), Wanted(Reduce(params[0], args), reached)) == Some(open)
    ensures var p := Reduce(params[0], args);
            && ReducibleAll(done + open) && ReducibleAll(Remaining(params, p, reached)) && ReducibleAll(applied[1..])
            && ApplyState(Remaining(params, p, reached), |applied| - 1, vararg, reached)
            && Last(Remaining(params, p, reached)) == Last(params)
            && ApplyNext(done, params, applied, vararg, reached, args) ==
               Apply(done + open, Remaining(params, p, reached), applied[1..], vararg, reached, args)
  {
    var p := Reduce(params[0], args);
    AcceptWeight(Reduce(applied[0], args), Wanted(p, reached), args);
    RestIsReady(done, params, applied, open, p, vararg, reached, args);
    assert ApplyNext(done, params, applied, vararg, reached, args) == ApplyOn(done, params, applied, open, p, vararg, reached, args);
  }

  lemma {:induction false} RestIsReady(done: seq<TypeTree>, params: seq<TypeTree>, applied: seq<TypeTree>, open: seq<TypeTree>,
                                       p: TypeTree, vararg: bool, reached: bool, args: seq<TypeTree>)
    requires ReducibleAll(done) && ReducibleAll(params) && ReducibleAll(applied) && ReducibleAll(open) && Reducible(p)
    requires applied != [] && ApplyState(params, |applied|, vararg, reached) && reached == params[0].op.ArgList?
    requires (reached ==> p.op.ArgList?) && Weight(p, args) <= Weight(params[0], args) && WeightAll(open, args) < Weight(applied[0], args)
    ensures && ReducibleAll(done + open) && ReducibleAll(Remaining(params, p, reached)) && ReducibleAll(applied[1..])
            && ApplyState(Remaining(params, p, reached), |applied| - 1, vararg, reached)
            && Last(Remaining(params, p, reached)) == Last(params)
  {
    ApplyStateStep(params, p, |applied|, vararg, reached);
    ApplyStepLoad(done, params, applied, open, p, reached, args);
  }

  lemma {:induction false} OpenIsNormal(done: seq<TypeTree>, a: TypeTree, wanted: TypeTree)
    requires NormalAll(done) && Normal(a) && Reducible(a) && Shaped(wanted) && Accept(a, wanted).Some?
    ensures NormalAll(done + Accept(a, wanted).value)
  {
  }

  lemma {:induction false} RestReducesToNormal(ts: seq<TypeTree>, args: seq<TypeTree>)
    requires ReducibleAll(ts) && ts != [] && ArgTypes(args) && NormalAll(ReduceAll(ts, args))
    ensures ReducibleAll(ts[1..]) && NormalAll(ReduceAll(ts[1..], args))
  {
    ReduceAllRest(ts, args);
  }

  /** So reducing once more changes nothing, whatever the arguments are taken for then. */
  lemma {:induction false} ReduceOnce(t: TypeTree, args: seq<TypeTree>, again: seq<TypeTree>)
    requires Prepared(t) && ArgTypes(args) && NormalAll(args) && ArgTypes(again)
    ensures Reduce(Reduce(t, args), again) == Reduce(t, args)
  {
    ReduceIsNormal(t, args);
    ReduceNormal(Reduce(t, args), again);
  }

  /** Why results must be in normal form: behind inputs left open the result of an applied
      function is not looked at. */
  lemma {:induction false} ResultLeftUnreduced(u: TypeTree, g: TypeTree)
    requires u == Node(Union, [Leaf(Contin), Leaf(Contin)]) && g == Node(Lambda, [Leaf(Contin), Leaf(Boolean)])
    ensures var t := Node(Application, [Node(Lambda, [Leaf(Boolean), u]), g]);
            && Reducible(t) && Reduce(t, []) == Node(Lambda, [Leaf(Contin), u])
            && Reduce(Node(Lambda, [Leaf(Contin), u]), []) == Node(Lambda, [Leaf(Contin), Leaf(Contin)])
  {
    var params := [Leaf(Boolean), u];
    var t := Node(Application, [Node(Lambda, params), g]);
    FunctionReady(g);
    PairUnited(u);
    AppliedOnce(params, u, g);
    StartsLoop(params, g);
    LambdaReduced([Leaf(Contin), u], [Leaf(Contin), Leaf(Contin)]);
  }

  lemma {:induction false} FunctionReady(g: TypeTree)
    requires g == Node(Lambda, [Leaf(Contin), Leaf(Boolean)])
    ensures Reducible(g) && Reduce(g, []) == g
  {
    assert Normal(g.kids[0]) && Normal(g.kids[1]);
    ReduceNormal(g, []);
  }

  lemma {:induction false} StartsLoop(params: seq<TypeTree>, g: TypeTree)
    requires ReducibleAll(params) && Reducible(g) && |params| == 2 && ApplyState(params, 1, false, false)
    ensures ReducibleAll([g]) && Reducible(Node(Application, [Node(Lambda, params), g]))
    ensures Reduce(Node(Application, [Node(Lambda, params), g]), []) == Apply([], params, [g], false, false, [])
  {
    var t := Node(Application, [Node(Lambda, params), g]);
    assert Reducible(t.kids[0]) && Reducible(t.kids[1]);
    assert t.kids[1..] == [g];
  }

  lemma {:induction false} LambdaReduced(ts: seq<TypeTree>, rs: seq<TypeTree>)
    requires ReducibleAll(ts) && |ts| == |rs| == 2 && Reduce(ts[0], []) == rs[0] && Reduce(ts[1], []) == rs[1]
    ensures Reducible(Node(Lambda, ts)) && Reduce(Node(Lambda, ts), []) == Node(Lambda, rs)
  {
    assert ReduceAll(ts, []) == rs;
  }

  lemma {:induction false} PairUnited(u: TypeTree)
    requires u == Node(Union, [Leaf(Contin), Leaf(Contin)])
    ensures Reducible(u) && Reduce(u, []) == Leaf(Contin)
  {
    var c := Leaf(Contin);
    assert Reducible(u.kids[0]) && Reducible(u.kids[1]) && Reduce(c, []) == c;
    assert ReduceAll(u.kids, []) == u.kids;
    PairPruned(u.kids, c);
  }

  lemma {:induction false} PairPruned(ts: seq<TypeTree>, c: TypeTree)
    requires Shaped(c) && Inherit(c, c) && ts == [c, c]
    ensures ShapedAll(ts) && Prune(ts, 0) == [c]
  {
    assert Inherit(ts[0], ts[1]) && Covered(ts, 0);
    assert Without(ts, 0) == [c] && !Covered([c], 0);
    assert Prune([c], 0) == Prune([c], 1) == [c];
  }

  lemma {:induction false} AppliedOnce(params: seq<TypeTree>, u: TypeTree, g: TypeTree)
    requires params == [Leaf(Boolean), u] && Reducible(u) && u.op.Union?
    requires g == Node(Lambda, [Leaf(Contin), Leaf(Boolean)]) && Reducible(g) && Reduce(g, []) == g
    ensures ReducibleAll(params) && ReducibleAll([g]) && ApplyState(params, 1, false, false)
    ensures Apply([], params, [g], false, false, []) == Node(Lambda, [Leaf(Contin), u])
  {
    var open := [Leaf(Contin)];
    ResultAccepted(g);
    ClosedBehind(open, u);
    assert Remaining(params, params[0], false) == [u] && [g][1..] == [] && [] + open == open;
    OneTurn([], params, [g], open, false, false, [], Node(Lambda, [Leaf(Contin), u]));
  }

  lemma {:induction false} ResultAccepted(g: TypeTree)
    requires g == Node(Lambda, [Leaf(Contin), Leaf(Boolean)]) && Reducible(g)
    ensures Accept(g, Leaf(Boolean)) == Some([Leaf(Contin)])
  {
    assert Inputs(g) == [Leaf(Contin)] && Inherit(Last(g.kids), Leaf(Boolean));
  }

  lemma {:induction false} ClosedBehind(open: seq<TypeTree>, u: TypeTree)
    requires open == [Leaf(Contin)] && ReducibleAll(open) && Reducible(u) && !u.op.ArgList?
    ensures ApplyState([u], 0, false, false) && Apply(open, [u], [], false, false, []) == Node(Lambda, [Leaf(Contin), u])
  {
    assert open + [u] == [Leaf(Contin), u];
    assert Apply(open, [u], [], false, false, []) == Close(open, [u], []);
  }

  // ---------------------------------------------------------------- types of programs

  lemma {:induction false} SignaturePrepared(v: Vertex)
    ensures Prepared(VertexType(v)) && (VertexType(v).op.Lambda? ==> Normal(VertexType(v)))
  {
    VertexTypeReducible(v);
    if v.Op? {
      TableIsElementary(v.b);
      var t := Signature(v.b);
      forall i | 0 <= i < |t.kids| ensures Normal(t.kids[i]) && Prepared(t.kids[i]) {
        if t.kids[i].op.ArgList? { assert Normal(t.kids[i].kids[0]) && Prepared(t.kids[i].kids[0]); }
        ReduceNormal(t.kids[i], []);
      }
    }
  }

  lemma {:induction false} ProgramPrepared(t: ComboTree)
    ensures Prepared(GetTypeTree(t))
    decreases t
  {
    SignaturePrepared(t.op);
    if t.kids != [] {
      var tree := GetTypeTree(t);
      forall i | 0 <= i < |tree.kids| ensures Prepared(tree.kids[i]) {
        if i > 0 {
          assert tree.kids[i] == GetTypeTree(t.kids[i - 1]);
          ProgramPrepared(t.kids[i - 1]);
        }
      }
      assert tree.kids[0] == VertexType(t.op);
    }
  }

  /** The type of every program, lists and folds included, is reduced in one pass. */
  lemma {:induction false} ProgramReducedOnce(t: ComboTree, args: seq<TypeTree>)
    requires ArgTypes(args) && NormalAll(args)
    ensures Normal(Reduce(GetTypeTree(t), args))
  {
    ProgramPrepared(t);
    ReduceIsNormal(GetTypeTree(t), args);
  }
}
