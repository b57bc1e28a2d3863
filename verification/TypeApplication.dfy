/** Applying a function type to arguments that leave inputs open: which inputs the
    outcome has, and in which order. */
module TypeApplications {
  import opened Options
  import opened Trees
  import opened TypeTrees
  import opened TypeReduce
  import opened TypeIntersection

  // ---------------------------------------------------------------- the outcome of an application

  /** What the i-th argument is checked against; the parameter in front of the result
      may be repeated. */
  function WantedAt(params: seq<TypeTree>, i: nat): TypeTree
    requires params != [] && ShapedAll(params) && (i < |params| - 1 || Repeated(params))
  {
    var n := |params| - 1;
    if Repeated(params) && i >= n - 1 then params[n - 1].kids[0] else params[i]
  }

  predicate Repeated(params: seq<TypeTree>) { |params| >= 2 && params[|params| - 2].op.ArgList? }

  /** The number of arguments fits. */
  predicate Takes(params: seq<TypeTree>, n: nat) {
    params != [] && if Repeated(params) then n >= |params| - 2 else n == |params| - 1
  }

  function Wanteds(params: seq<TypeTree>, n: nat): (ws: seq<TypeTree>)
    requires ShapedAll(params) && Takes(params, n)
    ensures |ws| == n && ShapedAll(ws) && forall i | 0 <= i < n :: ws[i] == WantedAt(params, i)
  {
    seq(n, i requires 0 <= i < n => WantedAt(params, i))
  }

  function Both(a: Option<seq<TypeTree>>, b: Option<seq<TypeTree>>): Option<seq<TypeTree>> {
    if a.Some? && b.Some? then Some(a.value + b.value) else None
  }

  /** The inputs that arguments leave open, those of the first argument first; none
      where one of them is not accepted. */
  function AllOpen(xs: seq<TypeTree>, ws: seq<TypeTree>): (r: Option<seq<TypeTree>>)
    requires ReducibleAll(xs) && ShapedAll(ws) && |xs| == |ws|
    ensures r.Some? ==> ReducibleAll(r.value)
    decreases xs
  {
    if xs == [] then Some([])
    else
      Both(Accept(xs[0], ws[0]), AllOpen(xs[1..], ws[1..]))
  }

  /** A function of these inputs, or just the result. */
  function Function(inputs: seq<TypeTree>, result: TypeTree): TypeTree {
    if inputs == [] then result else Node(Lambda, inputs + [result])
  }

  function Outcome(open: Option<seq<TypeTree>>, done: seq<TypeTree>, result: TypeTree): TypeTree {
    if open.Some? then Function(done + open.value, result) else Leaf(IllFormed)
  }

  predicate NormalAll(ts: seq<TypeTree>) { forall i | 0 <= i < |ts| :: Normal(ts[i]) }

  // ---------------------------------------------------------------- the loop

  lemma {:induction false} NormalParams(ts: seq<TypeTree>)
    requires NormalAll(ts)
    ensures ReducibleAll(ts) && ShapedAll(ts)
  {
    forall i | 0 <= i < |ts| ensures Reducible(ts[i]) { ReduceNormal(ts[i], []); }
  }

  lemma {:induction false} CloseIsFunction(done: seq<TypeTree>, r: TypeTree, args: seq<TypeTree>)
    requires ReducibleAll(done) && Normal(r) && ArgTypes(args)
    ensures ReducibleAll([r]) && Close(done, [r], args) == Function(done, r)
  {
    ReduceNormal(r, args);
    if done == [] { assert done + [r] == [r]; }
  }

  /** One argument less, and the parameters that remain. */
  lemma {:induction false} WantedsStep(params: seq<TypeTree>, n: nat)
    requires NormalAll(params) && ShapedAll(params) && VarargLast(params) && Takes(params, n) && n > 0
    ensures var reached := params[0].op.ArgList?; var next := Remaining(params, params[0], reached);
            && NormalAll(next) && ShapedAll(next) && VarargLast(next) && Takes(next, n - 1) && Last(next) == Last(params)
            && Repeated(next) == Repeated(params)
            && WantedAt(params, 0) == Wanted(params[0], reached) && Wanteds(params, n)[1..] == Wanteds(next, n - 1)
  {
    var reached := params[0].op.ArgList?;
    if reached { assert Remaining(params, params[0], reached) == params; }
  }

  /** The loop leaves the inputs that are open already in front of those of the
      arguments still to come. */
  lemma {:induction false} ApplyInOrder(done: seq<TypeTree>, params: seq<TypeTree>, applied: seq<TypeTree>,
                                        reached: bool, args: seq<TypeTree>)
    requires ReducibleAll(done) && NormalAll(params) && VarargLast(params) && ReducibleAll(applied) && ArgTypes(args)
    requires Takes(params, |applied|) && (reached ==> Repeated(params) && |params| == 2)
    ensures ReducibleAll(params) && ShapedAll(params) && ApplyState(params, |applied|, Repeated(params), reached)
    ensures Apply(done, params, applied, Repeated(params), reached, args) ==
            Outcome(AllOpen(ReduceAll(applied, args), Wanteds(params, |applied|)), done, Last(params))
    decreases applied, 1
  {
    NormalParams(params);
    if applied == [] {
      var r := Last(params);
      assert (if Repeated(params) then params[1..] else params) == [r];
      CloseIsFunction(done, r, args);
      assert done + [] == done;
    } else {
      ApplyOneInOrder(done, params, applied, reached, args);
    }
  }

  lemma {:induction false} ApplyOneInOrder(done: seq<TypeTree>, params: seq<TypeTree>, applied: seq<TypeTree>,
                                           reached: bool, args: seq<TypeTree>)
    requires ReducibleAll(done) && NormalAll(params) && VarargLast(params) && ReducibleAll(applied) && ArgTypes(args)
    requires Takes(params, |applied|) && (reached ==> Repeated(params) && |params| == 2) && applied != []
    requires ReducibleAll(params) && ShapedAll(params)
    ensures ApplyState(params, |applied|, Repeated(params), reached)
    ensures Apply(done, params, applied, Repeated(params), reached, args) ==
            Outcome(AllOpen(ReduceAll(applied, args), Wanteds(params, |applied|)), done, Last(params))
    decreases applied, 0
  {
    var p, reached' := params[0], params[0].op.ArgList?;
    WantedsStep(params, |applied|);
    ReduceNormal(p, args);
    ApplyStateStep(params, p, |applied|, Repeated(params), reached');
    var first := Accept(Reduce(applied[0], args), Wanted(p, reached'));
    if first.Some? {
      AcceptedInOrder(done, params, applied, first.value, reached, reached', args);
    } else {
      NoTurn(done, params, applied, reached, reached', args);
      OpenStep(params, applied, args);
    }
  }

  lemma {:induction false} AcceptedInOrder(done: seq<TypeTree>, params: seq<TypeTree>, applied: seq<TypeTree>,
                                           open: seq<TypeTree>, reached: bool, reached': bool, args: seq<TypeTree>)
    requires ReducibleAll(done) && NormalAll(params) && VarargLast(params) && ReducibleAll(applied) && ArgTypes(args)
    requires Takes(params, |applied|) && (reached ==> Repeated(params) && |params| == 2) && applied != []
    requires ReducibleAll(params) && ShapedAll(params) && reached' == params[0].op.ArgList?
    requires Reduce(params[0], args) == params[0]
    requires Accept(Reduce(applied[0], args), Wanted(params[0], reached')) == Some(open)
    ensures ApplyState(params, |applied|, Repeated(params), reached)
    ensures Apply(done, params, applied, Repeated(params), reached, args) ==
            Outcome(AllOpen(ReduceAll(applied, args), Wanteds(params, |applied|)), done, Last(params))
    decreases applied[1..], 3
  {
    ApplyRestInOrder(done, params, applied, open, reached, reached', args);
    OpenStep(params, applied, args);
    OutcomeStep(open, AllOpen(ReduceAll(applied[1..], args), Wanteds(params, |applied|)[1..]), done, Last(params));
  }

  lemma {:induction false} OutcomeStep(first: seq<TypeTree>, rest: Option<seq<TypeTree>>, done: seq<TypeTree>, r: TypeTree)
    ensures Outcome(rest, done + first, r) == Outcome(Both(Some(first), rest), done, r)
  {
    if rest.Some? { assert done + first + rest.value == done + (first + rest.value); }
  }

  lemma {:induction false} ApplyRestInOrder(done: seq<TypeTree>, params: seq<TypeTree>, applied: seq<TypeTree>,
                                            open: seq<TypeTree>, reached: bool, reached': bool, args: seq<TypeTree>)
    requires ReducibleAll(done) && NormalAll(params) && VarargLast(params) && ReducibleAll(applied) && ArgTypes(args)
    requires Takes(params, |applied|) && (reached ==> Repeated(params) && |params| == 2) && applied != []
    requires ReducibleAll(params) && ShapedAll(params) && reached' == params[0].op.ArgList?
    requires Reduce(params[0], args) == params[0]
    requires Accept(Reduce(applied[0], args), Wanted(params[0], reached')) == Some(open)
    ensures ApplyState(params, |applied|, Repeated(params), reached)
    ensures var rest := AllOpen(ReduceAll(applied[1..], args), Wanteds(params, |applied|)[1..]);
            Apply(done, params, applied, Repeated(params), reached, args) == Outcome(rest, done + open, Last(params))
    decreases applied[1..], 2
  {
    var next := Remaining(params, params[0], reached');
    WantedsStep(params, |applied|);
    RestReady(done, params, applied, open, reached', args);
    ApplyInOrder(done + open, next, applied[1..], reached', args);
    OneTurn(done, params, applied, open, reached, reached', args,
            Outcome(AllOpen(ReduceAll(applied[1..], args), Wanteds(params, |applied|)[1..]), done + open, Last(params)));
  }

  lemma {:induction false} RestReady(done: seq<TypeTree>, params: seq<TypeTree>, applied: seq<TypeTree>,
                                     open: seq<TypeTree>, reached: bool, args: seq<TypeTree>)
    requires ReducibleAll(done) && ReducibleAll(params) && VarargLast(params) && ReducibleAll(applied) && ArgTypes(args)
    requires Takes(params, |applied|) && applied != [] && reached == params[0].op.ArgList?
    requires Accept(Reduce(applied[0], args), Wanted(params[0], reached)) == Some(open)
    ensures var next := Remaining(params, params[0], reached);
            && ReducibleAll(done + open) && ReducibleAll(next) && ReducibleAll(applied[1..])
            && ApplyState(next, |applied| - 1, Repeated(params), reached) && ApplyState(params, |applied|, Repeated(params), reached)
            && (reached ==> Repeated(next) && |next| == 2)
  {
    AcceptWeight(Reduce(applied[0], args), Wanted(params[0], reached), args);
    ApplyStepLoad(done, params, applied, open, params[0], reached, args);
    ApplyStateStep(params, params[0], |applied|, Repeated(params), reached);
  }

  /** One turn of the loop. */
  lemma {:induction false} OneTurn(done: seq<TypeTree>, params: seq<TypeTree>, applied: seq<TypeTree>,
                                   open: seq<TypeTree>, reached: bool, reached': bool, args: seq<TypeTree>, result: TypeTree)
    requires ReducibleAll(done) && ReducibleAll(params) && ReducibleAll(applied) && ArgTypes(args)
    requires applied != [] && ApplyState(params, |applied|, Repeated(params), reached) && reached' == params[0].op.ArgList?
    requires Reduce(params[0], args) == params[0]
    requires Accept(Reduce(applied[0], args), Wanted(params[0], reached')) == Some(open)
    requires ReducibleAll(done + open) && ReducibleAll(Remaining(params, params[0], reached')) && ReducibleAll(applied[1..])
    requires ApplyState(Remaining(params, params[0], reached'), |applied| - 1, Repeated(params), reached')
    requires result == Apply(done + open, Remaining(params, params[0], reached'), applied[1..], Repeated(params), reached', args)
    ensures Apply(done, params, applied, Repeated(params), reached, args) == result
  {
    AcceptWeight(Reduce(applied[0], args), Wanted(params[0], reached'), args);
    assert Apply(done, params, applied, Repeated(params), reached, args) ==
           ApplyNext(done, params, applied, Repeated(params), reached', args);
    NextTurn(done, params, applied, open, Repeated(params), reached', args);
  }

  lemma {:induction false} NextTurn(done: seq<TypeTree>, params: seq<TypeTree>, applied: seq<TypeTree>,
                                    open: seq<TypeTree>, vararg: bool, reached: bool, args: seq<TypeTree>)
    requires ReducibleAll(done) && ReducibleAll(params) && ReducibleAll(applied) && ArgTypes(args)
    requires applied != [] && ApplyState(params, |applied|, vararg, reached) && reached == params[0].op.ArgList?
    requires Reduce(params[0], args) == params[0]
    requires Accept(Reduce(applied[0], args), Wanted(params[0], reached)) == Some(open)
    requires WeightAll(open, args) < Weight(applied[0], args)
    requires ReducibleAll(done + open) && ReducibleAll(Remaining(params, params[0], reached)) && ReducibleAll(applied[1..])
    requires ApplyState(Remaining(params, params[0], reached), |applied| - 1, vararg, reached)
    ensures ApplyNext(done, params, applied, vararg, reached, args) ==
            Apply(done + open, Remaining(params, params[0], reached), applied[1..], vararg, reached, args)
  {
    assert ApplyNext(done, params, applied, vararg, reached, args) ==
           ApplyOn(done, params, applied, open, params[0], vararg, reached, args);
  }

  lemma {:induction false} NoTurn(done: seq<TypeTree>, params: seq<TypeTree>, applied: seq<TypeTree>,
                                  reached: bool, reached': bool, args: seq<TypeTree>)
    requires ReducibleAll(done) && ReducibleAll(params) && ReducibleAll(applied) && ArgTypes(args)
    requires applied != [] && ApplyState(params, |applied|, Repeated(params), reached) && reached' == params[0].op.ArgList?
    requires ApplyState(params, |applied|, Repeated(params), reached')
    requires Reduce(params[0], args) == params[0]
    requires Accept(Reduce(applied[0], args), Wanted(params[0], reached')) == None
    ensures Apply(done, params, applied, Repeated(params), reached, args) == Leaf(IllFormed)
  {
    assert Apply(done, params, applied, Repeated(params), reached, args) ==
           ApplyNext(done, params, applied, Repeated(params), reached', args);
  }

  /** The first argument's inputs, and those of the others. */
  lemma {:induction false} OpenStep(params: seq<TypeTree>, applied: seq<TypeTree>, args: seq<TypeTree>)
    requires NormalAll(params) && ShapedAll(params) && VarargLast(params) && Takes(params, |applied|) && applied != []
    requires ReducibleAll(applied) && ArgTypes(args)
    ensures var ws := Wanteds(params, |applied|);
            AllOpen(ReduceAll(applied, args), ws) ==
            Both(Accept(Reduce(applied[0], args), Wanted(params[0], params[0].op.ArgList?)), AllOpen(ReduceAll(applied[1..], args), ws[1..]))
  {
    WantedsStep(params, |applied|);
    assert ReduceAll(applied, args)[1..] == ReduceAll(applied[1..], args);
  }

  /** The outcome of applying a function type, whatever its inputs and its arguments: if
      their number fits and each argument is accepted, a function of what they leave
      open, in the order of the arguments. */
  lemma {:induction false} ApplicationInOrder(params: seq<TypeTree>, applied: seq<TypeTree>, args: seq<TypeTree>)
    requires NormalAll(params) && VarargLast(params) && ReducibleAll(applied) && ArgTypes(args) && applied != []
    ensures ShapedAll(params) && Reducible(Node(Application, [Node(Lambda, params)] + applied))
    ensures Reduce(Node(Application, [Node(Lambda, params)] + applied), args) ==
            if Takes(params, |applied|) then Outcome(AllOpen(ReduceAll(applied, args), Wanteds(params, |applied|)), [], Last(params))
            else Leaf(IllFormed)
  {
    var t := Node(Application, [Node(Lambda, params)] + applied);
    NormalParams(params);
    assert t.kids[0] == Node(Lambda, params) && t.kids[1..] == applied;
    assert Reducible(t) by {
      forall i | 0 <= i < |t.kids| ensures Reducible(t.kids[i]) { if i > 0 { assert t.kids[i] == applied[i - 1]; } }
    }
    assert Reduce(t, args) == ReduceApplication(t, args);
    if Takes(params, |applied|) { ApplyInOrder([], params, applied, false, args); }
  }

  // ---------------------------------------------------------------- applying in turn

  /** An elementary type that no function inherits from. */
  predicate Plain(p: TypeTree) {
    p.kids == [] && !p.op.Operator() && !p.op.IllFormed? && !p.op.Unknown? && !p.op.Argument?
  }

  /** A type whose result p accepts: of a function without repeated inputs, or without any. */
  ghost predicate Yields(g: TypeTree, p: TypeTree)
    requires Shaped(p)
  {
    && Normal(g) && Plain(p)
    && if g.op.Lambda? then Inherit(Last(g.kids), p) && NoneRepeated(g.kids) else Inherit(g, p)
  }

  predicate NoneRepeated(ts: seq<TypeTree>) { forall i | 0 <= i < |ts| :: !ts[i].op.ArgList? }

  /** What is still to be given to g. */
  function InputsOf(g: TypeTree): seq<TypeTree> {
    if g.op.Lambda? && g.kids != [] then Inputs(g) else []
  }

  function ApplyTo(g: TypeTree, xs: seq<TypeTree>): TypeTree {
    if xs == [] then g else Node(Application, [g] + xs)
  }

  function Joined(xss: seq<seq<TypeTree>>): seq<TypeTree> {
    if xss == [] then [] else xss[0] + Joined(xss[1..])
  }

  /** The inputs of several types, those of the first one first. */
  function AllInputs(gs: seq<TypeTree>): seq<TypeTree> {
    if gs == [] then [] else InputsOf(gs[0]) + AllInputs(gs[1..])
  }

  function ApplyEach(gs: seq<TypeTree>, xss: seq<seq<TypeTree>>): (ts: seq<TypeTree>)
    requires |xss| == |gs|
    ensures |ts| == |gs| && forall i | 0 <= i < |gs| :: ts[i] == ApplyTo(gs[i], xss[i])
  {
    seq(|gs|, i requires 0 <= i < |gs| => ApplyTo(gs[i], xss[i]))
  }

  ghost predicate YieldAll(gs: seq<TypeTree>, ps: seq<TypeTree>) {
    |gs| == |ps| && forall i | 0 <= i < |gs| :: Plain(ps[i]) && Yields(gs[i], ps[i])
  }

  /** As many types as g has inputs. */
  ghost predicate Feeds(xs: seq<TypeTree>, g: TypeTree) { ReducibleAll(xs) && |xs| == |InputsOf(g)| }

  ghost predicate FeedAll(xss: seq<seq<TypeTree>>, gs: seq<TypeTree>) {
    |xss| == |gs| && forall i | 0 <= i < |gs| :: Feeds(xss[i], gs[i])
  }

  /** A type that is accepted leaves its inputs open. */
  lemma {:induction false} AcceptsYield(g: TypeTree, p: TypeTree)
    requires Plain(p) && Yields(g, p)
    ensures Reducible(g) && Accept(g, p) == Some(InputsOf(g))
  {
    ReduceNormal(g, []);
  }

  lemma {:induction false} AllYield(gs: seq<TypeTree>, ps: seq<TypeTree>)
    requires YieldAll(gs, ps)
    ensures ReducibleAll(gs) && ShapedAll(ps) && AllOpen(gs, ps) == Some(AllInputs(gs))
    decreases gs
  {
    forall i | 0 <= i < |gs| ensures Reducible(gs[i]) && Shaped(ps[i]) { ReduceNormal(gs[i], []); }
    if gs != [] {
      AcceptsYield(gs[0], ps[0]);
      AllYield(gs[1..], ps[1..]);
    }
  }

  /** A function applied to types that yield what it takes: a function of their inputs,
      in the order of the arguments. */
  lemma {:induction false} InputsInOrder(ps: seq<TypeTree>, r: TypeTree, gs: seq<TypeTree>, args: seq<TypeTree>)
    requires YieldAll(gs, ps) && gs != [] && Normal(r) && !r.op.ArgList? && ArgTypes(args)
    ensures var t := Node(Application, [Node(Lambda, ps + [r])] + gs);
            Reducible(t) && Reduce(t, args) == Function(AllInputs(gs), r)
  {
    AllYield(gs, ps);
    AppliedToAll(ps, r, gs, args);
    ReduceNormalAll(gs, args);
    assert [] + AllInputs(gs) == AllInputs(gs);
  }

  /** A function without repeated inputs. */
  lemma {:induction false} AppliedToAll(ps: seq<TypeTree>, r: TypeTree, xs: seq<TypeTree>, args: seq<TypeTree>)
    requires NormalAll(ps) && NoneRepeated(ps) && Normal(r) && !r.op.ArgList?
    requires ReducibleAll(xs) && |xs| == |ps| > 0 && ShapedAll(ps) && ArgTypes(args)
    ensures var t := Node(Application, [Node(Lambda, ps + [r])] + xs);
            Reducible(t) && Reduce(t, args) == Outcome(AllOpen(ReduceAll(xs, args), ps), [], r)
  {
    var params := ps + [r];
    forall i | 0 <= i < |params| ensures Normal(params[i]) && !params[i].op.ArgList? {}
    ApplicationInOrder(params, xs, args);
    assert Wanteds(params, |xs|) == ps;
  }

  lemma {:induction false} OpenJoined(xs: seq<TypeTree>, ys: seq<TypeTree>, vs: seq<TypeTree>, ws: seq<TypeTree>)
    requires ReducibleAll(xs) && ReducibleAll(ys) && ShapedAll(vs) && ShapedAll(ws) && |xs| == |vs| && |ys| == |ws|
    ensures ReducibleAll(xs + ys) && ShapedAll(vs + ws)
    ensures var a, b := AllOpen(xs, vs), AllOpen(ys, ws);
            AllOpen(xs + ys, vs + ws) == Both(a, b)
    decreases xs
  {
    if xs == [] {
      var b := AllOpen(ys, ws);
      assert xs + ys == ys && vs + ws == ws;
      assert b.Some? ==> [] + b.value == b.value;
    } else {
      assert (xs + ys)[1..] == xs[1..] + ys && (vs + ws)[1..] == vs[1..] + ws;
      OpenJoined(xs[1..], ys, vs[1..], ws);
      JoinedThree(Accept(xs[0], vs[0]), AllOpen(xs[1..], vs[1..]), AllOpen(ys, ws));
    }
  }

  lemma {:induction false} JoinedThree(a: Option<seq<TypeTree>>, b: Option<seq<TypeTree>>, c: Option<seq<TypeTree>>)
    ensures Both(a, Both(b, c)) == Both(Both(a, b), c)
  {
    if a.Some? && b.Some? && c.Some? { assert a.value + (b.value + c.value) == a.value + b.value + c.value; }
  }

  lemma {:induction false} InputsAreNormal(gs: seq<TypeTree>)
    requires forall i | 0 <= i < |gs| :: Normal(gs[i]) && (gs[i].op.Lambda? ==> NoneRepeated(gs[i].kids))
    ensures NormalAll(AllInputs(gs)) && NoneRepeated(AllInputs(gs)) && ShapedAll(AllInputs(gs))
  {
    if gs != [] { InputsAreNormal(gs[1..]); }
  }

  lemma {:induction false} JoinedParts(xss: seq<seq<TypeTree>>, gs: seq<TypeTree>)
    requires FeedAll(xss, gs)
    ensures ReducibleAll(Joined(xss)) && |Joined(xss)| == |AllInputs(gs)|
  {
    if gs != [] { JoinedParts(xss[1..], gs[1..]); }
  }

  /** Applied to its own share, each type leaves open what is left open of its share. */
  lemma {:induction false} ShareOf(g: TypeTree, p: TypeTree, xs: seq<TypeTree>, args: seq<TypeTree>)
    requires Plain(p) && Yields(g, p) && Feeds(xs, g) && ArgTypes(args)
    ensures Reducible(ApplyTo(g, xs)) && ShapedAll(InputsOf(g))
    ensures Accept(Reduce(ApplyTo(g, xs), args), p) == AllOpen(ReduceAll(xs, args), InputsOf(g))
  {
    ReduceNormal(g, args);
    InputsAreNormal([g]);
    assert AllInputs([g]) == InputsOf(g) by { assert [g][1..] == [] && InputsOf(g) + [] == InputsOf(g); }
    if xs == [] {
      AcceptsYield(g, p);
    } else {
      AppliedShare(g, p, xs, args);
    }
  }

  lemma {:induction false} AppliedShare(g: TypeTree, p: TypeTree, xs: seq<TypeTree>, args: seq<TypeTree>)
    requires Plain(p) && Yields(g, p) && Feeds(xs, g) && ArgTypes(args) && xs != [] && ShapedAll(InputsOf(g))
    ensures Reducible(ApplyTo(g, xs))
    ensures Accept(Reduce(ApplyTo(g, xs), args), p) == AllOpen(ReduceAll(xs, args), InputsOf(g))
  {
    AppliedToAll(InputsOf(g), Last(g.kids), xs, args);
    assert InputsOf(g) + [Last(g.kids)] == g.kids;
    ReduceNormal(Last(g.kids), args);
    OutcomeYields(AllOpen(ReduceAll(xs, args), InputsOf(g)), Last(g.kids), p);
  }

  lemma {:induction false} OutcomeYields(open: Option<seq<TypeTree>>, r: TypeTree, p: TypeTree)
    requires Plain(p) && (open.Some? ==> ReducibleAll(open.value)) && Reducible(r) && Inherit(r, p)
    ensures Reducible(Outcome(open, [], r)) && Accept(Outcome(open, [], r), p) == open
  {
    if open.Some? {
      assert [] + open.value == open.value;
      FunctionYields(open.value, r, p);
    }
  }

  lemma {:induction false} FunctionYields(inputs: seq<TypeTree>, r: TypeTree, p: TypeTree)
    requires Plain(p) && ReducibleAll(inputs) && Reducible(r) && Inherit(r, p)
    ensures Reducible(Function(inputs, r)) && Accept(Function(inputs, r), p) == Some(inputs)
  {
    assert Last(inputs + [r]) == r && (inputs + [r])[..|inputs|] == inputs;
  }

  lemma {:induction false} SharesOf(gs: seq<TypeTree>, ps: seq<TypeTree>, xss: seq<seq<TypeTree>>, args: seq<TypeTree>)
    requires YieldAll(gs, ps) && FeedAll(xss, gs) && ArgTypes(args)
    ensures ReducibleAll(ApplyEach(gs, xss)) && ReducibleAll(Joined(xss)) && ShapedAll(ps) && ShapedAll(AllInputs(gs))
    ensures |Joined(xss)| == |AllInputs(gs)|
    ensures AllOpen(ReduceAll(ApplyEach(gs, xss), args), ps) == AllOpen(ReduceAll(Joined(xss), args), AllInputs(gs))
    decreases gs
  {
    forall i | 0 <= i < |gs| ensures Reducible(ApplyEach(gs, xss)[i]) && Shaped(ps[i]) { ShareOf(gs[i], ps[i], xss[i], args); }
    InputsAreNormal(gs);
    JoinedParts(xss, gs);
    if gs != [] {
      ShareOf(gs[0], ps[0], xss[0], args);
      SharesOf(gs[1..], ps[1..], xss[1..], args);
      ShareThenRest(gs, ps, xss, args);
    }
  }

  lemma {:induction false} ReduceAllRest(ts: seq<TypeTree>, args: seq<TypeTree>)
    requires ReducibleAll(ts) && ts != [] && ArgTypes(args)
    ensures ReducibleAll(ts[1..]) && ReduceAll(ts, args)[1..] == ReduceAll(ts[1..], args)
  {
  }

  lemma {:induction false} ReduceAllJoined(xs: seq<TypeTree>, ys: seq<TypeTree>, args: seq<TypeTree>)
    requires ReducibleAll(xs) && ReducibleAll(ys) && ArgTypes(args)
    ensures ReducibleAll(xs + ys) && ReduceAll(xs + ys, args) == ReduceAll(xs, args) + ReduceAll(ys, args)
  {
    var zs, rs := xs + ys, ReduceAll(xs, args) + ReduceAll(ys, args);
    forall i | 0 <= i < |zs| ensures Reducible(zs[i]) && Reduce(zs[i], args) == rs[i] {
      if i < |xs| { assert zs[i] == xs[i]; } else { assert zs[i] == ys[i - |xs|]; }
    }
    assert |ReduceAll(zs, args)| == |rs| && forall i | 0 <= i < |zs| :: ReduceAll(zs, args)[i] == rs[i];
  }

  lemma {:induction false} ShareThenRest(gs: seq<TypeTree>, ps: seq<TypeTree>, xss: seq<seq<TypeTree>>, args: seq<TypeTree>)
    requires YieldAll(gs, ps) && FeedAll(xss, gs) && ArgTypes(args) && gs != []
    requires ReducibleAll(ApplyEach(gs, xss)) && ReducibleAll(ApplyEach(gs[1..], xss[1..])) && ReducibleAll(Joined(xss[1..])) && ReducibleAll(Joined(xss))
    requires ShapedAll(ps) && ShapedAll(AllInputs(gs[1..])) && ShapedAll(AllInputs(gs)) && ShapedAll(InputsOf(gs[0]))
    requires |Joined(xss[1..])| == |AllInputs(gs[1..])| && |Joined(xss)| == |AllInputs(gs)|
    requires Reducible(ApplyTo(gs[0], xss[0]))
    requires Accept(Reduce(ApplyTo(gs[0], xss[0]), args), ps[0]) == AllOpen(ReduceAll(xss[0], args), InputsOf(gs[0]))
    requires AllOpen(ReduceAll(ApplyEach(gs[1..], xss[1..]), args), ps[1..]) == AllOpen(ReduceAll(Joined(xss[1..]), args), AllInputs(gs[1..]))
    ensures AllOpen(ReduceAll(ApplyEach(gs, xss), args), ps) == AllOpen(ReduceAll(Joined(xss), args), AllInputs(gs))
  {
    assert ApplyEach(gs, xss)[1..] == ApplyEach(gs[1..], xss[1..]);
    ReduceAllRest(ApplyEach(gs, xss), args);
    ReduceAllJoined(xss[0], Joined(xss[1..]), args);
    OpenJoined(ReduceAll(xss[0], args), ReduceAll(Joined(xss[1..]), args), InputsOf(gs[0]), AllInputs(gs[1..]));
  }

  /** Applying in turn: to give the outcome of an application the types that it takes
      comes to the same as giving each argument its own share of them before. */
  lemma {:induction false} ApplyingInTurn(ps: seq<TypeTree>, r: TypeTree, gs: seq<TypeTree>, xss: seq<seq<TypeTree>>, args: seq<TypeTree>)
    requires YieldAll(gs, ps) && gs != [] && Normal(r) && !r.op.ArgList? && FeedAll(xss, gs) && ArgTypes(args)
    ensures var f := Node(Lambda, ps + [r]);
            && Reducible(ApplyTo(f, gs)) && Reducible(ApplyTo(f, ApplyEach(gs, xss)))
            && Reducible(ApplyTo(Reduce(ApplyTo(f, gs), args), Joined(xss)))
            && Reduce(ApplyTo(Reduce(ApplyTo(f, gs), args), Joined(xss)), args) == Reduce(ApplyTo(f, ApplyEach(gs, xss)), args)
  {
    InputsInOrder(ps, r, gs, args);
    SharesOf(gs, ps, xss, args);
    AppliedAtOnce(ps, r, gs, xss, args);
    AppliedBehind(r, gs, Joined(xss), args);
  }

  lemma {:induction false} AppliedAtOnce(ps: seq<TypeTree>, r: TypeTree, gs: seq<TypeTree>, xss: seq<seq<TypeTree>>, args: seq<TypeTree>)
    requires YieldAll(gs, ps) && gs != [] && Normal(r) && !r.op.ArgList? && |xss| == |gs| && ArgTypes(args)
    requires ReducibleAll(ApplyEach(gs, xss)) && ShapedAll(ps)
    ensures var t := ApplyTo(Node(Lambda, ps + [r]), ApplyEach(gs, xss));
            Reducible(t) && Reduce(t, args) == Outcome(AllOpen(ReduceAll(ApplyEach(gs, xss), args), ps), [], r)
  {
    AppliedToAll(ps, r, ApplyEach(gs, xss), args);
  }

  lemma {:induction false} AppliedBehind(r: TypeTree, gs: seq<TypeTree>, xs: seq<TypeTree>, args: seq<TypeTree>)
    requires forall i | 0 <= i < |gs| :: Normal(gs[i]) && (gs[i].op.Lambda? ==> NoneRepeated(gs[i].kids))
    requires Normal(r) && !r.op.ArgList? && ReducibleAll(xs) && |xs| == |AllInputs(gs)| && ArgTypes(args)
    ensures ShapedAll(AllInputs(gs))
    ensures var t := ApplyTo(Function(AllInputs(gs), r), xs);
            Reducible(t) && Reduce(t, args) == Outcome(AllOpen(ReduceAll(xs, args), AllInputs(gs)), [], r)
  {
    InputsAreNormal(gs);
    var qs := AllInputs(gs);
    if xs == [] {
      ReduceNormal(r, args);
    } else {
      AppliedToAll(qs, r, xs, args);
    }
  }

  /** contin_if(0< impulse 5.0) is a function of a contin and then a boolean. */
  lemma {:induction false} MixedInputs(args: seq<TypeTree>)
    requires ArgTypes(args)
    ensures var test, impulse := Node(Lambda, [Leaf(Contin), Leaf(Boolean)]), Node(Lambda, [Leaf(Boolean), Leaf(Contin)]);
            var f := Node(Lambda, [Leaf(Boolean), Leaf(Contin), Leaf(Contin), Leaf(Contin)]);
            var t := ApplyTo(f, [test, impulse, Leaf(Contin)]);
            Reducible(t) && Reduce(t, args) == Node(Lambda, [Leaf(Contin), Leaf(Boolean), Leaf(Contin)])
  {
    var ps, r := [Leaf(Boolean), Leaf(Contin), Leaf(Contin)], Leaf(Contin);
    var gs := [Node(Lambda, [Leaf(Contin), Leaf(Boolean)]), Node(Lambda, [Leaf(Boolean), Leaf(Contin)]), Leaf(Contin)];
    MixedYield(ps, gs);
    InputsInOrder(ps, r, gs, args);
    AllInputsOfThree(gs);
    assert Function(AllInputs(gs), r) == Node(Lambda, AllInputs(gs) + [r]);
    assert AllInputs(gs) + [r] == [Leaf(Contin), Leaf(Boolean), Leaf(Contin)];
    assert ps + [r] == [Leaf(Boolean), Leaf(Contin), Leaf(Contin), Leaf(Contin)];
  }

  lemma {:induction false} MixedYield(ps: seq<TypeTree>, gs: seq<TypeTree>)
    requires ps == [Leaf(Boolean), Leaf(Contin), Leaf(Contin)]
    requires gs == [Node(Lambda, [Leaf(Contin), Leaf(Boolean)]), Node(Lambda, [Leaf(Boolean), Leaf(Contin)]), Leaf(Contin)]
    ensures YieldAll(gs, ps)
  {
    assert Normal(Leaf(Boolean)) && Normal(Leaf(Contin));
    assert Normal(gs[0]) && Normal(gs[1]) && Normal(gs[2]);
  }

  lemma {:induction false} AllInputsOfThree(gs: seq<TypeTree>)
    requires |gs| == 3
    ensures AllInputs(gs) == InputsOf(gs[0]) + InputsOf(gs[1]) + InputsOf(gs[2])
  {
    assert gs[1..][1..] == [gs[2]] && [gs[2]][1..] == [];
    assert AllInputs([gs[2]]) == InputsOf(gs[2]) + [];
    assert AllInputs(gs[1..]) == InputsOf(gs[1]) + InputsOf(gs[2]);
  }
}
