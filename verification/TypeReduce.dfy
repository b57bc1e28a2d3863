/** Reduction of type trees: applications are checked against the parameters of
    the applied function and consumed, covered union members are dropped, and
    arguments are replaced by their types.  The trees are values here: the
    function returns the subtree that the source leaves in place. */
module TypeReduce {
  import opened Trees
  import opened TypeTrees
  import opened Options

  // ---------------------------------------------------------------- preconditions

  predicate ArgFree(t: TypeTree) {
    !t.op.Argument? && forall i | 0 <= i < |t.kids| :: ArgFree(t.kids[i])
  }

  /** Every applied function takes its variable-length parameter last, if at all. */
  predicate Applicable(t: TypeTree) {
    && (t.op.Application? && t.kids != [] && t.kids[0].op.Lambda? ==> VarargLast(t.kids[0].kids))
    && forall i | 0 <= i < |t.kids| :: Applicable(t.kids[i])
  }

  predicate VarargLast(ts: seq<TypeTree>) {
    && ts != [] && !Last(ts).op.ArgList?
    && forall i | 0 <= i < |ts| - 2 :: !ts[i].op.ArgList?
  }

  predicate Reducible(t: TypeTree) { Shaped(t) && Applicable(t) }

  predicate ShapedAll(ts: seq<TypeTree>) {
    forall i | 0 <= i < |ts| :: Shaped(ts[i])
  }

  predicate ReducibleAll(ts: seq<TypeTree>) {
    forall i | 0 <= i < |ts| :: Reducible(ts[i])
  }

  /** The types known for the arguments: themselves free of arguments. */
  predicate ArgTypes(args: seq<TypeTree>) {
    forall i | 0 <= i < |args| :: Reducible(args[i]) && ArgFree(args[i]) && !args[i].op.Application?
  }

  function ArgType(i: nat, args: seq<TypeTree>): TypeTree {
    if i < |args| then args[i] else Leaf(Unknown)
  }

  // ---------------------------------------------------------------- termination measure

  /** Size of the tree once every argument is replaced by its type, plus one
      for each replacement. */
  ghost function Weight(t: TypeTree, args: seq<TypeTree>): nat {
    1 + WeightAll(t.kids, args) + if t.op.Argument? then Size(ArgType(t.op.idx, args)) else 0
  }

  ghost function WeightAll(ts: seq<TypeTree>, args: seq<TypeTree>): (w: nat)
    ensures |ts| <= w
    ensures forall i | 0 <= i < |ts| :: Weight(ts[i], args) <= w
  {
    if ts == [] then 0 else Weight(ts[0], args) + WeightAll(ts[1..], args)
  }

  lemma {:induction false} WeightConcat(xs: seq<TypeTree>, ys: seq<TypeTree>, args: seq<TypeTree>)
    ensures WeightAll(xs + ys, args) == WeightAll(xs, args) + WeightAll(ys, args)
  {
    if xs == [] {
      assert xs + ys == ys;
    } else {
      assert (xs + ys)[1..] == xs[1..] + ys;
      WeightConcat(xs[1..], ys, args);
    }
  }

  function Without(ts: seq<TypeTree>, i: nat): (r: seq<TypeTree>)
    requires i < |ts|
    ensures |r| == |ts| - 1
    ensures forall k | 0 <= k < |r| :: r[k] == if k < i then ts[k] else ts[k + 1]
  {
    ts[..i] + ts[i + 1..]
  }

  lemma {:induction false} WeightWithout(ts: seq<TypeTree>, i: nat, args: seq<TypeTree>)
    requires i < |ts|
    ensures WeightAll(Without(ts, i), args) == WeightAll(ts, args) - Weight(ts[i], args)
  {
    WeightConcat(ts[..i], ts[i + 1..], args);
    WeightConcat(ts[..i], ts[i..], args);
    assert ts == ts[..i] + ts[i..];
  }

  lemma {:induction false} WeightInputs(ts: seq<TypeTree>, args: seq<TypeTree>)
    requires ts != []
    ensures WeightAll(ts, args) == WeightAll(ts[..|ts| - 1], args) + Weight(Last(ts), args)
  {
    WeightConcat(ts[..|ts| - 1], [Last(ts)], args);
    assert ts == ts[..|ts| - 1] + [Last(ts)];
    assert [Last(ts)][1..] == [];
  }

  lemma {:induction false} ArgFreeWeight(t: TypeTree, args: seq<TypeTree>)
    requires ArgFree(t)
    ensures Weight(t, args) == Size(t)
    decreases t
  {
    ArgFreeWeightAll(t.kids, args);
  }

  lemma {:induction false} ArgFreeWeightAll(ts: seq<TypeTree>, args: seq<TypeTree>)
    requires forall i | 0 <= i < |ts| :: ArgFree(ts[i])
    ensures WeightAll(ts, args) == SizeAll(ts)
    decreases ts
  {
    if ts != [] {
      ArgFreeWeight(ts[0], args);
      ArgFreeWeightAll(ts[1..], args);
    }
  }

  // ---------------------------------------------------------------- reduction

  /** Member i inherits from another member. */
  predicate Covered(ts: seq<TypeTree>, i: nat)
    requires i < |ts| && ShapedAll(ts)
  {
    exists j :: 0 <= j < |ts| && j != i && Inherit(ts[i], ts[j])
  }

  /** Drops, from position i on, each member that inherits from another remaining one. */
  function Prune(ts: seq<TypeTree>, i: nat): (r: seq<TypeTree>)
    requires ShapedAll(ts)
    ensures forall x | x in r :: x in ts
    ensures ts != [] ==> r != []
    decreases |ts| - i
  {
    if i >= |ts| then
      ts
    else if Covered(ts, i) then
      Prune(Without(ts, i), i)
    else
      Prune(ts, i + 1)
  }

  lemma {:induction false} PruneWeight(ts: seq<TypeTree>, i: nat, args: seq<TypeTree>)
    requires ShapedAll(ts)
    ensures WeightAll(Prune(ts, i), args) <= WeightAll(ts, args)
    decreases |ts| - i
  {
    if i >= |ts| {
    } else if Covered(ts, i) {
      WeightWithout(ts, i, args);
      PruneWeight(Without(ts, i), i, args);
    } else {
      PruneWeight(ts, i + 1, args);
    }
  }

  function Reduce(t: TypeTree, args: seq<TypeTree>): (r: TypeTree)
    requires Reducible(t) && ArgTypes(args)
    ensures Reducible(r) && !r.op.Application?
    ensures t.op.ArgList? ==> r.op.ArgList?
    ensures Weight(r, args) <= Weight(t, args)
    decreases Weight(t, args), 1
  {
    match t.op
    case Lambda =>
      if |t.kids| == 1 then Reduce(t.kids[0], args) else Node(Lambda, ReduceAll(t.kids, args))
    case Application =>
      if |t.kids| == 1 then
        Reduce(t.kids[0], args)
      else if t.kids[0].op.Lambda? then
        ReduceApplication(t, args)
      else
        Leaf(IllFormed)
    case Union =>
      Unite(ReduceAll(t.kids, args), args)
    case ArgList =>
      WeightSingle(t.kids[0], args);
      assert t.kids == [t.kids[0]];
      var k := ReducePreOrder(t.kids[0], args);
      WeightSingle(k, args);
      Node(ArgList, [k])
    case Argument(i) =>
      ArgTypeWeight(i, args);
      ArgType(i, args)
    case _ => t
  }

  /** Checks the number of applied arguments, then their types. */
  function ReduceApplication(t: TypeTree, args: seq<TypeTree>): (r: TypeTree)
    requires Reducible(t) && ArgTypes(args) && t.op.Application? && t.kids[0].op.Lambda?
    ensures Reducible(r) && !r.op.Application?
    ensures Weight(r, args) <= Weight(t, args)
    decreases Weight(t, args), 0
  {
    assert Reducible(t.kids[0]);
    var params := t.kids[0].kids;
    var applied := t.kids[1..];
    var vararg := |params| >= 2 && params[|params| - 2].op.ArgList?;
    if (vararg && |applied| < |params| - 2) || (!vararg && |applied| != |params| - 1) then
      Leaf(IllFormed)
    else
      assert Load([], params, applied, args) + 2 == Weight(t, args) by {
        assert WeightAll(t.kids, args) == Weight(t.kids[0], args) + WeightAll(applied, args);
      }
      Apply([], params, applied, vararg, false, args)
  }

  /** A union of already reduced members: covered members go, a single one stands alone. */
  function Unite(ts: seq<TypeTree>, ghost args: seq<TypeTree>): (r: TypeTree)
    requires ReducibleAll(ts) && ts != []
    ensures Reducible(r)
    ensures (forall i | 0 <= i < |ts| :: !ts[i].op.Application?) ==> !r.op.Application?
    ensures Weight(r, args) <= 1 + WeightAll(ts, args)
  {
    PruneWeight(ts, 0, args);
    var left := Prune(ts, 0);
    assert forall k | 0 <= k < |left| :: left[k] in ts;
    if |left| == 1 then left[0] else Node(Union, left)
  }

  lemma {:induction false} ArgTypeWeight(i: nat, args: seq<TypeTree>)
    requires ArgTypes(args)
    ensures Weight(ArgType(i, args), args) == Size(ArgType(i, args))
    ensures Reducible(ArgType(i, args)) && !ArgType(i, args).op.Application?
  {
    ArgFreeWeight(ArgType(i, args), args);
  }

  lemma {:induction false} WeightSingle(t: TypeTree, args: seq<TypeTree>)
    ensures WeightAll([t], args) == Weight(t, args)
  {
    assert [t][1..] == [];
  }

  function ReduceAll(ts: seq<TypeTree>, args: seq<TypeTree>): (r: seq<TypeTree>)
    requires ReducibleAll(ts) && ArgTypes(args)
    ensures ReducibleAll(r) && |r| == |ts|
    ensures WeightAll(r, args) <= WeightAll(ts, args)
    ensures forall i | 0 <= i < |r| :: !r[i].op.Application?
    ensures forall i | 0 <= i < |ts| :: r[i] == Reduce(ts[i], args)
    decreases WeightAll(ts, args), 3
  {
    if ts == [] then [] else [Reduce(ts[0], args)] + ReduceAll(ts[1..], args)
  }

  /** What a pre-order walk that reduces every node it reaches leaves behind. */
  function ReducePreOrder(t: TypeTree, args: seq<TypeTree>): (r: TypeTree)
    requires Reducible(t) && ArgTypes(args)
    ensures Reducible(r)
    ensures Weight(r, args) <= Weight(t, args)
    decreases Weight(t, args), 2
  {
    var top := Reduce(t, args);
    Node(top.op, ReducePreOrderAll(top.kids, args))
  }

  function ReducePreOrderAll(ts: seq<TypeTree>, args: seq<TypeTree>): (r: seq<TypeTree>)
    requires ReducibleAll(ts) && ArgTypes(args)
    ensures ReducibleAll(r) && |r| == |ts|
    ensures WeightAll(r, args) <= WeightAll(ts, args)
    ensures forall i | 0 <= i < |ts| :: r[i] == ReducePreOrder(ts[i], args)
    decreases WeightAll(ts, args), 3
  {
    if ts == [] then [] else [ReducePreOrder(ts[0], args)] + ReducePreOrderAll(ts[1..], args)
  }

  /** The type that the next applied argument is checked against, given the
      reduced parameter p in front. */
  function Wanted(p: TypeTree, reached: bool): TypeTree
    requires Shaped(p) && (reached ==> p.op.ArgList?)
  {
    if reached then p.kids[0] else p
  }

  /** The parameters that remain after one more argument; a repeated arg_list stays. */
  function Remaining(params: seq<TypeTree>, p: TypeTree, reached: bool): (r: seq<TypeTree>)
    requires params != []
    ensures |r| == if reached then |params| else |params| - 1
  {
    if reached then [p] + params[1..] else params[1..]
  }

  ghost function Load(done: seq<TypeTree>, params: seq<TypeTree>, applied: seq<TypeTree>, args: seq<TypeTree>): nat {
    WeightAll(done, args) + WeightAll(params, args) + WeightAll(applied, args)
  }

  /** One more argument is consumed: the parameters it leaves open join `done`, and the load shrinks. */
  lemma {:induction false} ApplyStepLoad(done: seq<TypeTree>, params: seq<TypeTree>, applied: seq<TypeTree>,
                      open: seq<TypeTree>, p: TypeTree, reached: bool, args: seq<TypeTree>)
    requires params != [] && Weight(p, args) <= Weight(params[0], args)
    requires applied != [] && WeightAll(open, args) < Weight(applied[0], args)
    requires ReducibleAll(done) && ReducibleAll(params) && ReducibleAll(applied) && ReducibleAll(open) && Reducible(p)
    ensures ReducibleAll(done + open) && ReducibleAll(Remaining(params, p, reached)) && ReducibleAll(applied[1..])
    ensures Load(done + open, Remaining(params, p, reached), applied[1..], args) < Load(done, params, applied, args)
  {
    WeightConcat(done, open, args);
    if reached { assert ([p] + params[1..])[1..] == params[1..]; }
  }

  /** The parameters a partially applied function leaves open. */
  function Inputs(a: TypeTree): (r: seq<TypeTree>)
    requires a.kids != []
  {
    a.kids[..|a.kids| - 1]
  }

  /** Bookkeeping of the loop over applied arguments. */
  predicate ApplyState(params: seq<TypeTree>, applied: nat, vararg: bool, reached: bool) {
    && VarargLast(params)
    && vararg == (|params| >= 2 && params[|params| - 2].op.ArgList?)
    && (reached ==> vararg && |params| == 2)
    && (if vararg then |params| - 2 <= applied || reached else |params| - 1 == applied)
  }

  lemma {:induction false} ApplyStateStep(params: seq<TypeTree>, p: TypeTree, applied: nat, vararg: bool, reached: bool)
    requires ApplyState(params, applied, vararg, reached) && applied > 0
    requires reached == params[0].op.ArgList? && (reached ==> p.op.ArgList?)
    ensures ApplyState(Remaining(params, p, reached), applied - 1, vararg, reached)
  {
    assert Last(Remaining(params, p, reached)) == Last(params);
  }

  /** The inputs an accepted argument leaves open: none when its type inherits
      from the wanted one, its own inputs when only its result does. */
  function Accept(a: TypeTree, wanted: TypeTree): (r: Option<seq<TypeTree>>)
    requires Reducible(a) && Shaped(wanted)
    ensures r.Some? ==> ReducibleAll(r.value)
  {
    if Inherit(a, wanted) then Some([])
    else if a.op.Lambda? && Inherit(Last(a.kids), wanted) then Some(Inputs(a))
    else None
  }

  lemma {:induction false} AcceptWeight(a: TypeTree, wanted: TypeTree, args: seq<TypeTree>)
    requires Reducible(a) && Shaped(wanted) && Accept(a, wanted).Some?
    ensures WeightAll(Accept(a, wanted).value, args) < Weight(a, args)
  {
    if !Inherit(a, wanted) { WeightInputs(a.kids, args); }
  }

  /** The loop over the applied arguments.  `done` holds parameters left open by
      partially applied arguments, `params` the parameters not yet consumed with
      the result last; `reached` says that the arg_list is now being repeated. */
  function Apply(done: seq<TypeTree>, params: seq<TypeTree>, applied: seq<TypeTree>,
                 vararg: bool, reached: bool, args: seq<TypeTree>): (r: TypeTree)
    requires ReducibleAll(done) && ReducibleAll(params) && ReducibleAll(applied) && ArgTypes(args)
    requires ApplyState(params, |applied|, vararg, reached)
    ensures Reducible(r) && !r.op.Application?
    ensures Weight(r, args) <= 1 + Load(done, params, applied, args)
    decreases Load(done, params, applied, args), 4
  {
    if applied == [] then
      Close(done, if vararg then params[1..] else params, args)
    else
      ApplyNext(done, params, applied, vararg, reached || params[0].op.ArgList?, args)
  }

  /** Reduces and checks the next applied argument. */
  function ApplyNext(done: seq<TypeTree>, params: seq<TypeTree>, applied: seq<TypeTree>,
                     vararg: bool, reached: bool, args: seq<TypeTree>): (r: TypeTree)
    requires ReducibleAll(done) && ReducibleAll(params) && ReducibleAll(applied) && ArgTypes(args)
    requires applied != [] && ApplyState(params, |applied|, vararg, reached)
    requires reached == params[0].op.ArgList?
    ensures Reducible(r) && !r.op.Application?
    ensures Weight(r, args) <= 1 + Load(done, params, applied, args)
    decreases Load(done, params, applied, args), 3
  {
    var a := Reduce(applied[0], args);
    var p := Reduce(params[0], args);
    match Accept(a, Wanted(p, reached))
    case None => Leaf(IllFormed)
    case Some(open) =>
      AcceptWeight(a, Wanted(p, reached), args);
      ApplyStateStep(params, p, |applied|, vararg, reached);
      ApplyOn(done, params, applied, open, p, vararg, reached, args)
  }

  /** Goes on after one argument was accepted, with the inputs it left open. */
  function ApplyOn(done: seq<TypeTree>, params: seq<TypeTree>, applied: seq<TypeTree>,
                   open: seq<TypeTree>, p: TypeTree, vararg: bool, reached: bool, args: seq<TypeTree>): (r: TypeTree)
    requires ReducibleAll(done) && ReducibleAll(params) && ReducibleAll(applied) && ArgTypes(args)
    requires params != [] && Reducible(p) && Weight(p, args) <= Weight(params[0], args)
    requires applied != [] && ReducibleAll(open) && WeightAll(open, args) < Weight(applied[0], args)
    requires ApplyState(Remaining(params, p, reached), |applied| - 1, vararg, reached)
    ensures Reducible(r) && !r.op.Application?
    ensures Weight(r, args) <= 1 + Load(done, params, applied, args)
    decreases Load(done, params, applied, args), 2
  {
    ApplyStepLoad(done, params, applied, open, p, reached, args);
    Apply(done + open, Remaining(params, p, reached), applied[1..], vararg, reached, args)
  }

  /** Closes an application: what is left of the function, unwrapped if that is only its result. */
  function Close(done: seq<TypeTree>, params: seq<TypeTree>, args: seq<TypeTree>): (r: TypeTree)
    requires ReducibleAll(done) && ReducibleAll(params) && ArgTypes(args) && params != []
    ensures Reducible(r) && !r.op.Application?
    ensures Weight(r, args) <= 1 + WeightAll(done, args) + WeightAll(params, args)
    decreases WeightAll(done, args) + WeightAll(params, args), 2
  {
    var left := done + params;
    WeightConcat(done, params, args);
    if |left| == 1 then Reduce(left[0], args) else Node(Lambda, left)
  }
}
