/** Type soundness: a program whose inferred type is a well-formed function to
    boolean or contin evaluates, on inputs of the inferred types, to a value of the
    result type or overflows; it never gets stuck. */
module TypeSoundness {
  import opened Options
  import opened Trees
  import opened TypeTrees
  import opened TypeReduce
  import opened TypeIntersection
  import TypeApplications
  import opened Combo
  import opened ScalarInterpreter
  import opened TypeInference

  // ---------------------------------------------------------------- the fragment

  predicate ScalarBuiltin(b: Builtin) {
    !b.List? && !b.Car? && !b.Cdr? && !b.Cons? && !b.Foldr? && !b.Foldl?
  }

  /** The operators that the interpreter takes for a number when they have no operands. */
  predicate RunsBare(b: Builtin) { b.Plus? || b.Times? }

  /** Every operator that needs an operand has one. */
  predicate Operable(t: ComboTree) {
    && (t.op.Op? ==> ScalarBuiltin(t.op.b) && (Arity(t.op) != 0 && !RunsBare(t.op.b) ==> t.kids != []))
    && forall i | 0 <= i < |t.kids| :: Operable(t.kids[i])
  }

  /** Every operator of the scalar language stands with at least one operand. */
  predicate Saturated(t: ComboTree) {
    && Operable(t)
    && (t.op.Op? && RunsBare(t.op.b) ==> t.kids != [])
    && forall i | 0 <= i < |t.kids| :: Saturated(t.kids[i])
  }

  /** Every negated argument has the boolean type. */
  predicate NegatesBooleans(t: ComboTree, args: seq<TypeTree>) {
    && (t.op.Arg? && t.op.negated ==> ArgType(t.op.idx, args) == Leaf(Boolean))
    && forall i | 0 <= i < |t.kids| :: NegatesBooleans(t.kids[i], args)
  }

  predicate HasType(v: Vertex, t: TypeTree) {
    (t == Leaf(Boolean) && IsBoolean(v)) || (t == Leaf(Contin) && v.Num?)
  }

  /** Inputs of boolean and contin type are of that type; others may be anything. */
  predicate InputsMatch(inputs: seq<Vertex>, args: seq<TypeTree>) {
    && |args| <= |inputs|
    && forall i | 0 <= i < |args| :: args[i] in {Leaf(Boolean), Leaf(Contin)} ==> HasType(inputs[i], args[i])
  }

  predicate Fine(o: Outcome, t: TypeTree) {
    o.Overflow? || (o.Val? && HasType(o.v, t))
  }

  // ---------------------------------------------------------------- a direct typing rule

  /** Type of an operator applied to operands of the given types. */
  function ResultOf(b: Builtin, ts: seq<TypeTree>): TypeTree
    requires ShapedAll(ts)
  {
    match TypeOfBuiltin(b)
    case Constant(_) => Leaf(IllFormed)
    case Variadic(p, r) =>
      TableIsElementary(b);
      if AllInherit(ts, Leaf(p)) then Leaf(r) else Leaf(IllFormed)
    case Fixed(ps, r) =>
      TableIsElementary(b);
      if |ts| == |ps| && InheritEach(ts, Leaves(ps)) then Leaf(r) else Leaf(IllFormed)
  }

  predicate AllInherit(ts: seq<TypeTree>, p: TypeTree)
    requires ShapedAll(ts) && Shaped(p)
  {
    ts == [] || (Inherit(ts[0], p) && AllInherit(ts[1..], p))
  }

  predicate InheritEach(ts: seq<TypeTree>, ps: seq<TypeTree>)
    requires ShapedAll(ts) && ShapedAll(ps) && |ts| == |ps|
  {
    ts == [] || (Inherit(ts[0], ps[0]) && InheritEach(ts[1..], ps[1..]))
  }

  function TypeOf(t: ComboTree, args: seq<TypeTree>): (r: TypeTree)
    requires LeafTypes(args) && Operable(t)
    ensures LeafType(r) && Shaped(r)
    decreases t
  {
    if t.kids == [] then
      if t.op.Arg? then ArgType(t.op.idx, args)
      else if t.op.Op? then TableIsElementary(t.op.b); Leaf(TypeOfBuiltin(t.op.b).result)
      else Leaf(Contin)
    else if t.op.Op? then
      TableIsElementary(t.op.b);
      ResultOf(t.op.b, TypesOf(t.kids, args))
    else
      Leaf(IllFormed)
  }

  function TypesOf(ts: seq<ComboTree>, args: seq<TypeTree>): (r: seq<TypeTree>)
    requires LeafTypes(args) && forall i | 0 <= i < |ts| :: Operable(ts[i])
    ensures LeafTypes(r) && ShapedAll(r) && |r| == |ts|
    ensures forall i | 0 <= i < |ts| :: r[i] == TypeOf(ts[i], args)
    decreases ts
  {
    if ts == [] then []
    else
      var rest := TypesOf(ts[1..], args);
      assert forall i | 0 < i < |ts| :: ts[i] == ts[1..][i - 1];
      [TypeOf(ts[0], args)] + rest
  }

  // ---------------------------------------------------------------- inputs left open

  /** How often a plus or times without operands leaves its inputs to the program around it. */
  function Opens(t: ComboTree): nat
    decreases t, 0
  {
    if t.kids == [] then (if t.op.Op? && RunsBare(t.op.b) then 1 else 0) else Total(OpensAll(t.kids))
  }

  function OpensAll(ts: seq<ComboTree>): (r: seq<nat>)
    ensures |r| == |ts| && forall i | 0 <= i < |ts| :: r[i] == Opens(ts[i])
    decreases ts
  {
    if ts == [] then [] else [Opens(ts[0])] + OpensAll(ts[1..])
  }

  function Total(ns: seq<nat>): nat {
    if ns == [] then 0 else ns[0] + Total(ns[1..])
  }

  lemma {:induction false} NothingOpen(t: ComboTree)
    requires Saturated(t)
    ensures Operable(t) && Opens(t) == 0
    decreases t
  {
    forall i | 0 <= i < |t.kids| ensures Operable(t.kids[i]) && Opens(t.kids[i]) == 0 {
      NothingOpen(t.kids[i]);
    }
    TotalOfZeros(OpensAll(t.kids));
  }

  lemma {:induction false} TotalOfZeros(ns: seq<nat>)
    requires forall i | 0 <= i < |ns| :: ns[i] == 0
    ensures Total(ns) == 0
  {
    if ns != [] { TotalOfZeros(ns[1..]); }
  }

  /** The inputs of n such operators. */
  function ArgLists(n: nat): (r: seq<TypeTree>)
    ensures |r| == n && forall i | 0 <= i < n :: r[i] == Node(ArgList, [Leaf(Contin)])
  {
    seq(n, _ => Node(ArgList, [Leaf(Contin)]))
  }

  /** A type with n such inputs in front. */
  function Opened(n: nat, r: TypeTree): TypeTree {
    if n == 0 || r.op.IllFormed? then r else Node(Lambda, ArgLists(n) + [r])
  }

  lemma {:induction false} ArgListsReducible(n: nat)
    ensures ReducibleAll(ArgLists(n))
  {
    assert Reducible(Node(ArgList, [Leaf(Contin)])) by { assert Reducible(Leaf(Contin)); }
  }

  // ---------------------------------------------------------------- reduction computes that rule

  lemma {:induction false} LeafTypesAreArgTypes(args: seq<TypeTree>)
    requires LeafTypes(args)
    ensures ArgTypes(args)
  {
    forall i | 0 <= i < |args| ensures Reducible(args[i]) && ArgFree(args[i]) {
      assert args[i].kids == [];
    }
  }

  predicate ScalarType(t: TypeTree) { t == Leaf(Boolean) || t == Leaf(Contin) }

  lemma {:induction false} AcceptOpened(n: nat, r: TypeTree, wanted: TypeTree)
    requires LeafType(r) && ScalarType(wanted) && Reducible(Opened(n, r))
    ensures Shaped(r) && Shaped(wanted) && Accept(Opened(n, r), wanted) == if Inherit(r, wanted) then Some(ArgLists(n)) else None
  {
    if n == 0 || r.op.IllFormed? {
      assert ArgLists(0) == [];
    } else {
      assert Inputs(Opened(n, r)) == ArgLists(n);
    }
  }

  /** The applied arguments reduce to types with inputs in front. */
  ghost predicate ReducedTo(applied: seq<TypeTree>, ns: seq<nat>, ts: seq<TypeTree>, args: seq<TypeTree>) {
    && ArgTypes(args) && ReducibleAll(applied) && |ts| == |ns| == |applied| && LeafTypes(ts) && ShapedAll(ts)
    && forall i | 0 <= i < |ts| :: Reduce(applied[i], args) == Opened(ns[i], ts[i])
  }

  /** Such types are accepted where the types behind their inputs inherit, and leave all
      their inputs open. */
  lemma {:induction false} OpenedAccepted(xs: seq<TypeTree>, ns: seq<nat>, ts: seq<TypeTree>, ws: seq<TypeTree>)
    requires ReducibleAll(xs) && |xs| == |ns| == |ts| == |ws| && LeafTypes(ts) && ShapedAll(ts)
    requires forall i | 0 <= i < |xs| :: xs[i] == Opened(ns[i], ts[i]) && ScalarType(ws[i])
    ensures ShapedAll(ws)
    ensures TypeApplications.AllOpen(xs, ws) == if InheritEach(ts, ws) then Some(ArgLists(Total(ns))) else None
    decreases xs
  {
    if xs != [] {
      AcceptOpened(ns[0], ts[0], ws[0]);
      OpenedAccepted(xs[1..], ns[1..], ts[1..], ws[1..]);
      assert ArgLists(ns[0]) + ArgLists(Total(ns[1..])) == ArgLists(Total(ns));
    }
  }

  /** An operator applied to such arguments. */
  lemma {:induction false} ReduceChecked(tree: TypeTree, params: seq<TypeTree>, applied: seq<TypeTree>, ns: seq<nat>, ts: seq<TypeTree>,
                                         ws: seq<TypeTree>, r: TypeTree, args: seq<TypeTree>)
    requires TypeApplications.NormalAll(params) && VarargLast(params) && Last(params) == r && LeafType(r) && !r.op.IllFormed?
    requires ReducedTo(applied, ns, ts, args) && applied != [] && tree == Node(Application, [Node(Lambda, params)] + applied)
    requires TypeApplications.Takes(params, |applied|) && ShapedAll(params)
    requires ws == TypeApplications.Wanteds(params, |applied|) && forall i | 0 <= i < |ws| :: ScalarType(ws[i])
    ensures Reducible(tree) && Reduce(tree, args) == Opened(Total(ns), if InheritEach(ts, ws) then r else Leaf(IllFormed))
  {
    TypeApplications.ApplicationInOrder(params, applied, args);
    OpenedAccepted(ReduceAll(applied, args), ns, ts, ws);
    var n := Total(ns);
    assert [] + ArgLists(n) == ArgLists(n);
  }

  /** The reduced type of a program is its syntax-directed type behind the inputs that
      operators without operands leave open. */
  lemma {:induction false} ReduceIsTypeOf(t: ComboTree, args: seq<TypeTree>)
    requires Operable(t) && LeafTypes(args) && ArgTypes(args)
    ensures Reduce(GetTypeTree(t), args) == Opened(Opens(t), TypeOf(t, args))
    decreases t
  {
    if t.kids != [] {
      var applied := GetTypeTrees(t.kids);
      forall i | 0 <= i < |t.kids| ensures Reduce(applied[i], args) == Opened(Opens(t.kids[i]), TypeOf(t.kids[i], args)) {
        ReduceIsTypeOf(t.kids[i], args);
      }
      ReduceCall(t, applied, args);
    } else {
      ReduceAlone(t, args);
    }
  }

  lemma {:induction false} ReduceAlone(t: ComboTree, args: seq<TypeTree>)
    requires Operable(t) && LeafTypes(args) && ArgTypes(args) && t.kids == []
    ensures Reduce(GetTypeTree(t), args) == Opened(Opens(t), TypeOf(t, args))
  {
    if t.op.Op? {
      AloneIsTyped(t.op.b, args);
    } else {
      assert VertexType(t.op).kids == [];
    }
  }

  lemma {:induction false} AloneIsTyped(b: Builtin, args: seq<TypeTree>)
    requires ScalarBuiltin(b) && (TypeOfBuiltin(b).Constant? || RunsBare(b)) && ArgTypes(args)
    ensures Reducible(Signature(b))
    ensures Reduce(Signature(b), args) == Opened(if RunsBare(b) then 1 else 0, Leaf(TypeOfBuiltin(b).result))
  {
    if RunsBare(b) {
      BareSignature(b, args);
    } else {
      assert Signature(b).kids == [];
    }
  }

  lemma {:induction false} ReduceCall(t: ComboTree, applied: seq<TypeTree>, args: seq<TypeTree>)
    requires Operable(t) && LeafTypes(args) && ArgTypes(args) && t.kids != [] && applied == GetTypeTrees(t.kids)
    requires forall i | 0 <= i < |t.kids| :: Reduce(applied[i], args) == Opened(Opens(t.kids[i]), TypeOf(t.kids[i], args))
    ensures Reduce(GetTypeTree(t), args) == Opened(Opens(t), TypeOf(t, args))
  {
    var tree := GetTypeTree(t);
    assert tree.kids[0] == VertexType(t.op) && tree.kids[1..] == applied;
    if t.op.Op? {
      ReduceOperator(t.op.b, tree, applied, OpensAll(t.kids), TypesOf(t.kids, args), args);
    }
  }

  lemma {:induction false} BareSignature(b: Builtin, args: seq<TypeTree>)
    requires RunsBare(b) && ArgTypes(args)
    ensures Reducible(Signature(b)) && Reduce(Signature(b), args) == Opened(1, Leaf(Contin))
  {
    var listed := Node(ArgList, [Leaf(Contin)]);
    assert Signature(b) == Node(Lambda, [listed, Leaf(Contin)]) && ArgLists(1) == [listed];
    assert Normal(Leaf(Contin)) && Normal(listed) && Normal(Signature(b));
    ReduceNormal(Signature(b), args);
  }

  lemma {:induction false} ReduceOperator(b: Builtin, tree: TypeTree, applied: seq<TypeTree>, ns: seq<nat>, ts: seq<TypeTree>,
                                          args: seq<TypeTree>)
    requires ScalarBuiltin(b) && Reducible(tree) && tree.op.Application? && |tree.kids| >= 2
    requires tree.kids[0] == Signature(b) && tree.kids[1..] == applied && ReducedTo(applied, ns, ts, args)
    ensures Reduce(tree, args) == Opened(Total(ns), ResultOf(b, ts))
  {
    match TypeOfBuiltin(b)
    case Constant(_) =>
    case Variadic(p, r) => ReduceVariadic(b, tree, applied, ns, ts, args);
    case Fixed(ps, r) => ReduceFixed(b, tree, applied, ns, ts, args);
  }

  lemma {:induction false} ReduceVariadic(b: Builtin, tree: TypeTree, applied: seq<TypeTree>, ns: seq<nat>, ts: seq<TypeTree>,
                                          args: seq<TypeTree>)
    requires ScalarBuiltin(b) && TypeOfBuiltin(b).Variadic? && Reducible(tree) && tree.op.Application? && |tree.kids| >= 2
    requires tree.kids[0] == Signature(b) && tree.kids[1..] == applied && ReducedTo(applied, ns, ts, args)
    ensures Reduce(tree, args) == Opened(Total(ns), ResultOf(b, ts))
  {
    var p, r := Leaf(TypeOfBuiltin(b).param), Leaf(TypeOfBuiltin(b).result);
    var params, ws := [Node(ArgList, [p]), r], seq(|ts|, _ => p);
    VariadicResult(b, p, r, ts);
    VariadicParams(params, p, r, |ts|, ws);
    InheritEachSame(ts, p, ws);
    assert tree.kids == [Node(Lambda, params)] + applied;
    ReduceChecked(tree, params, applied, ns, ts, ws, r, args);
  }

  lemma {:induction false} InheritEachSame(ts: seq<TypeTree>, p: TypeTree, ws: seq<TypeTree>)
    requires ShapedAll(ts) && Shaped(p) && |ws| == |ts| && forall i | 0 <= i < |ws| :: ws[i] == p
    ensures ShapedAll(ws) && (InheritEach(ts, ws) <==> AllInherit(ts, p))
    decreases ts
  {
    if ts != [] { InheritEachSame(ts[1..], p, ws[1..]); }
  }

  lemma {:induction false} VariadicParams(params: seq<TypeTree>, p: TypeTree, r: TypeTree, n: nat, ws: seq<TypeTree>)
    requires params == [Node(ArgList, [p]), r] && ScalarType(p) && LeafType(r) && |ws| == n && forall i | 0 <= i < n :: ws[i] == p
    ensures TypeApplications.NormalAll(params) && VarargLast(params) && ShapedAll(params) && TypeApplications.Takes(params, n)
    ensures TypeApplications.Wanteds(params, n) == ws
  {
    assert Normal(p) && Normal(params[0]) && Normal(params[1]);
  }

  lemma {:induction false} VariadicResult(b: Builtin, p: TypeTree, r: TypeTree, ts: seq<TypeTree>)
    requires ScalarBuiltin(b) && TypeOfBuiltin(b).Variadic? && ShapedAll(ts)
    requires p == Leaf(TypeOfBuiltin(b).param) && r == Leaf(TypeOfBuiltin(b).result)
    ensures Signature(b) == Node(Lambda, [Node(ArgList, [p]), r]) && ScalarType(p) && LeafType(r) && !r.op.IllFormed? && Shaped(p)
    ensures ResultOf(b, ts) == if AllInherit(ts, p) then r else Leaf(IllFormed)
  {
    TableIsElementary(b);
  }

  lemma {:induction false} ReduceFixed(b: Builtin, tree: TypeTree, applied: seq<TypeTree>, ns: seq<nat>, ts: seq<TypeTree>,
                                       args: seq<TypeTree>)
    requires ScalarBuiltin(b) && TypeOfBuiltin(b).Fixed? && Reducible(tree) && tree.op.Application? && |tree.kids| >= 2
    requires tree.kids[0] == Signature(b) && tree.kids[1..] == applied && ReducedTo(applied, ns, ts, args)
    ensures Reduce(tree, args) == Opened(Total(ns), ResultOf(b, ts))
  {
    var ps, r := Leaves(TypeOfBuiltin(b).params), Leaf(TypeOfBuiltin(b).result);
    FixedLists(b, ps, r);
    FixedResult(b, ps, r, ts);
    FixedParams(ps, r);
    assert tree.kids == [Node(Lambda, ps + [r])] + applied;
    if |ps| == |ts| {
      ReduceChecked(tree, ps + [r], applied, ns, ts, ps, r, args);
    } else {
      TypeApplications.ApplicationInOrder(ps + [r], applied, args);
    }
  }

  lemma {:induction false} FixedParams(ps: seq<TypeTree>, r: TypeTree)
    requires ShapedAll(ps) && LeafType(r) && forall i | 0 <= i < |ps| :: ScalarType(ps[i])
    ensures var params := ps + [r];
            && TypeApplications.NormalAll(params) && VarargLast(params) && ShapedAll(params) && !TypeApplications.Repeated(params)
            && TypeApplications.Takes(params, |ps|) && TypeApplications.Wanteds(params, |ps|) == ps
  {
    var params := ps + [r];
    forall i | 0 <= i < |params| ensures Normal(params[i]) && !params[i].op.ArgList? {}
  }

  lemma {:induction false} FixedResult(b: Builtin, ps: seq<TypeTree>, r: TypeTree, ts: seq<TypeTree>)
    requires ScalarBuiltin(b) && TypeOfBuiltin(b).Fixed? && ShapedAll(ts) && ShapedAll(ps)
    requires ps == Leaves(TypeOfBuiltin(b).params) && r == Leaf(TypeOfBuiltin(b).result)
    ensures ResultOf(b, ts) == if |ts| == |ps| && InheritEach(ts, ps) then r else Leaf(IllFormed)
  {
  }

  lemma {:induction false} FixedLists(b: Builtin, ps: seq<TypeTree>, r: TypeTree)
    requires ScalarBuiltin(b) && TypeOfBuiltin(b).Fixed?
    requires ps == Leaves(TypeOfBuiltin(b).params) && r == Leaf(TypeOfBuiltin(b).result)
    ensures Signature(b) == Node(Lambda, ps + [r]) && LeafType(r) && !r.op.IllFormed?
    ensures ShapedAll(ps) && forall i | 0 <= i < |ps| :: ScalarType(ps[i])
  {
    TableIsElementary(b);
    forall i | 0 <= i < |ps| ensures ScalarType(ps[i]) {
      ParametersAreScalar(b, i);
    }
  }

  // ---------------------------------------------------------------- well-typed programs do not get stuck

  ghost predicate Setting(args: seq<TypeTree>, inputs: seq<Vertex>) {
    LeafTypes(args) && InputsMatch(inputs, args)
  }

  ghost predicate Ready(t: ComboTree, args: seq<TypeTree>) {
    Operable(t) && NegatesBooleans(t, args)
  }

  /** All operands are ready and have type p. */
  ghost predicate ReadyAt(ts: seq<ComboTree>, args: seq<TypeTree>, p: TypeTree)
    requires LeafTypes(args)
  {
    forall i | 0 <= i < |ts| :: Ready(ts[i], args) && TypeOf(ts[i], args) == p
  }

  lemma {:induction false} WellTypedEval(t: ComboTree, args: seq<TypeTree>, inputs: seq<Vertex>, m: Math)
    requires Setting(args, inputs) && Ready(t, args)
    requires TypeOf(t, args) in {Leaf(Boolean), Leaf(Contin)}
    ensures Fine(MixedEval(t, inputs, m), TypeOf(t, args))
    decreases t, 1
  {
    if t.kids != [] {
      if TypeOfBuiltin(t.op.b).Fixed? {
        FixedFine(t, args, inputs, m);
      } else {
        VariadicFine(t, args, inputs, m);
      }
    }
  }

  /** The operators of any number of operands. */
  lemma {:induction false} VariadicFine(t: ComboTree, args: seq<TypeTree>, inputs: seq<Vertex>, m: Math)
    requires Setting(args, inputs) && Ready(t, args) && t.kids != []
    requires t.op.Op? && !TypeOfBuiltin(t.op.b).Fixed? && TypeOf(t, args) in {Leaf(Boolean), Leaf(Contin)}
    ensures Fine(MixedEval(t, inputs, m), TypeOf(t, args))
    decreases t, 0
  {
    TableIsElementary(t.op.b);
    var p := Leaf(TypeOfBuiltin(t.op.b).param);
    AllInheritSame(TypesOf(t.kids, args), p);
    assert ReadyAt(t.kids, args, p);
    match t.op.b
    case And => UntilFine(False, True, t.kids, args, inputs, m);
    case Or => UntilFine(True, False, t.kids, args, inputs, m);
    case Plus => SumFine(t.kids, args, inputs, m);
    case Times => ProductFine(t.kids, args, inputs, m);
  }

  lemma {:induction false} AllInheritSame(ts: seq<TypeTree>, p: TypeTree)
    requires LeafTypes(ts) && ShapedAll(ts) && Shaped(p) && p in {Leaf(Boolean), Leaf(Contin)}
    requires AllInherit(ts, p)
    ensures forall i | 0 <= i < |ts| :: ts[i] == p
  {
    if ts != [] {
      AllInheritSame(ts[1..], p);
      forall i | 0 <= i < |ts| ensures ts[i] == p {
        if i > 0 { assert ts[i] == ts[1..][i - 1]; }
      }
    }
  }

  lemma {:induction false} EachInherits(ts: seq<TypeTree>, ps: seq<TypeTree>)
    requires ShapedAll(ts) && ShapedAll(ps) && |ts| == |ps| && InheritEach(ts, ps)
    ensures forall i | 0 <= i < |ts| :: Inherit(ts[i], ps[i])
  {
    if ts != [] {
      EachInherits(ts[1..], ps[1..]);
      forall i | 0 <= i < |ts| ensures Inherit(ts[i], ps[i]) {
        if i > 0 { assert ts[i] == ts[1..][i - 1] && ps[i] == ps[1..][i - 1]; }
      }
    }
  }

  /** The operators of fixed arity. */
  lemma {:induction false} FixedFine(t: ComboTree, args: seq<TypeTree>, inputs: seq<Vertex>, m: Math)
    requires Setting(args, inputs) && Ready(t, args) && t.kids != []
    requires t.op.Op? && TypeOfBuiltin(t.op.b).Fixed? && TypeOf(t, args) in {Leaf(Boolean), Leaf(Contin)}
    ensures Fine(MixedEval(t, inputs, m), TypeOf(t, args))
    decreases t, 0
  {
    var ts, ps := TypesOf(t.kids, args), TypeOfBuiltin(t.op.b).params;
    TableIsElementary(t.op.b);
    EachInherits(ts, Leaves(ps));
    forall i | 0 <= i < |t.kids| ensures Fine(MixedEval(t.kids[i], inputs, m), Leaf(ps[i])) {
      assert Inherit(ts[i], Leaves(ps)[i]) && Ready(t.kids[i], args);
      ParametersAreScalar(t.op.b, i);
      WellTypedEval(t.kids[i], args, inputs, m);
    }
    FixedEval(t, inputs, m);
  }

  lemma {:induction false} ParametersAreScalar(b: Builtin, i: nat)
    requires ScalarBuiltin(b) && TypeOfBuiltin(b).Fixed? && i < |TypeOfBuiltin(b).params|
    ensures TypeOfBuiltin(b).params[i] in {Boolean, Contin}
  {
  }

  lemma {:induction false} FixedEval(t: ComboTree, inputs: seq<Vertex>, m: Math)
    requires t.op.Op? && ScalarBuiltin(t.op.b) && TypeOfBuiltin(t.op.b).Fixed? && |t.kids| == |TypeOfBuiltin(t.op.b).params|
    requires forall i | 0 <= i < |t.kids| :: Fine(MixedEval(t.kids[i], inputs, m), Leaf(TypeOfBuiltin(t.op.b).params[i]))
    ensures Fine(MixedEval(t, inputs, m), Leaf(TypeOfBuiltin(t.op.b).result))
  {
    assert Fine(MixedEval(t.kids[0], inputs, m), Leaf(TypeOfBuiltin(t.op.b).params[0]));
    match t.op.b {
      case Div =>
        assert Fine(MixedEval(t.kids[1], inputs, m), Leaf(Contin));
        assert Fine(Quotient(t.kids, inputs, m), Leaf(Contin));
      case ContinIf =>
        assert t.kids[2..] == [t.kids[2]];
        assert Fine(MixedEval(t.kids[1], inputs, m), Leaf(Contin));
        assert Fine(Cond(t.kids[2..], inputs, m), Leaf(Contin));
      case _ =>
    }
  }

  lemma {:induction false} UntilFine(stop: Builtin, otherwise: Builtin, ts: seq<ComboTree>,
                                     args: seq<TypeTree>, inputs: seq<Vertex>, m: Math)
    requires Setting(args, inputs) && ReadyAt(ts, args, Leaf(Boolean))
    requires IsBoolean(Op(stop)) && IsBoolean(Op(otherwise))
    ensures Fine(Until(stop, otherwise, ts, inputs, m), Leaf(Boolean))
    decreases ts, 0
  {
    if ts != [] {
      assert Ready(ts[0], args);
      WellTypedEval(ts[0], args, inputs, m);
      UntilFine(stop, otherwise, ts[1..], args, inputs, m);
    }
  }

  lemma {:induction false} SumFine(ts: seq<ComboTree>, args: seq<TypeTree>, inputs: seq<Vertex>, m: Math)
    requires Setting(args, inputs) && ReadyAt(ts, args, Leaf(Contin))
    ensures forall acc :: Fine(Sum(acc, ts, inputs, m), Leaf(Contin))
    decreases ts, 0
  {
    if ts != [] {
      assert Ready(ts[0], args);
      WellTypedEval(ts[0], args, inputs, m);
      SumFine(ts[1..], args, inputs, m);
    }
  }

  lemma {:induction false} ProductFine(ts: seq<ComboTree>, args: seq<TypeTree>, inputs: seq<Vertex>, m: Math)
    requires Setting(args, inputs) && ReadyAt(ts, args, Leaf(Contin))
    ensures forall acc :: Fine(Product(acc, ts, inputs, m), Leaf(Contin))
    decreases ts, 0
  {
    if ts != [] {
      assert Ready(ts[0], args);
      WellTypedEval(ts[0], args, inputs, m);
      ProductFine(ts[1..], args, inputs, m);
      forall acc ensures Fine(Product(acc, ts, inputs, m), Leaf(Contin)) {
        ProductStepFine(acc, ts, inputs, m);
      }
    }
  }

  lemma {:induction false} ProductStepFine(acc: real, ts: seq<ComboTree>, inputs: seq<Vertex>, m: Math)
    requires ts != [] && Fine(MixedEval(ts[0], inputs, m), Leaf(Contin))
    requires forall acc :: Fine(Product(acc, ts[1..], inputs, m), Leaf(Contin))
    ensures Fine(Product(acc, ts, inputs, m), Leaf(Contin))
  {
  }

  /** Shape of an inferred signature: the types of the arguments, then the inputs left
      open by operators without operands, then the type of the program. */
  lemma {:induction false} InferTypeParts(t: ComboTree)
    requires Operable(t)
    ensures var args, sig := NarrowAll(LeavesOf(t, Root), []), InferType(t);
            && LeafTypes(args) && (sig.op.Lambda? ==> sig.kids != [])
            && SignatureOutput(sig) == TypeOf(t, args)
            && SignatureInputs(sig) == args + (if TypeOf(t, args).op.IllFormed? then [] else Contins(Opens(t)))
  {
    var args := NarrowAll(LeavesOf(t, Root), []);
    LeafTypesAreArgTypes(args);
    ReduceIsTypeOf(t, args);
    InsertedParts(args, Opens(t), TypeOf(t, args));
  }

  lemma {:induction false} InsertedParts(args: seq<TypeTree>, n: nat, r: TypeTree)
    requires LeafType(r)
    ensures var sig := InsertArgTypes(args, Opened(n, r));
            && (sig.op.Lambda? ==> sig.kids != []) && SignatureOutput(sig) == r
            && (LeafTypes(args) ==> SignatureInputs(sig) == args + if r.op.IllFormed? then [] else Contins(n))
  {
    var sig := InsertArgTypes(args, Opened(n, r));
    var open := if r.op.IllFormed? then [] else ArgLists(n);
    if args + open == [] {
      assert sig == r;
    } else {
      assert sig == Node(Lambda, args + open + [r]) by {
        if open != [] { assert args + (open + [r]) == args + open + [r]; }
      }
      assert sig.kids[..|sig.kids| - 1] == args + open;
    }
  }

  function Contins(n: nat): (r: seq<TypeTree>)
    ensures |r| == n && forall i | 0 <= i < n :: r[i] == Leaf(Contin)
  {
    seq(n, _ => Leaf(Contin))
  }

  /** Without operators that leave inputs open, the inputs are the arguments. */
  lemma {:induction false} SaturatedParts(t: ComboTree)
    requires Saturated(t)
    ensures Operable(t)
    ensures var args, sig := NarrowAll(LeavesOf(t, Root), []), InferType(t);
            && LeafTypes(args) && (sig.op.Lambda? ==> sig.kids != [])
            && SignatureInputs(sig) == args && SignatureOutput(sig) == TypeOf(t, args)
  {
    NothingOpen(t);
    InferTypeParts(t);
    var args := NarrowAll(LeavesOf(t, Root), []);
    assert args + [] == args && Contins(0) == [];
  }

  lemma {:induction false} NegatesArguments(t: ComboTree, args: seq<TypeTree>, n: nat)
    requires NegatesBooleans(t, args + Contins(n))
    ensures NegatesBooleans(t, args)
  {
    forall i | 0 <= i < |t.kids| ensures NegatesBooleans(t.kids[i], args) {
      NegatesArguments(t.kids[i], args, n);
    }
  }

  /** Type soundness of inference with respect to the scalar interpreter. */
  lemma {:induction false} TypeSoundness(t: ComboTree, inputs: seq<Vertex>, m: Math)
    requires Operable(t)
    requires var sig := InferType(t); sig.op.Lambda? ==> sig.kids != []
    requires var sig := InferType(t);
             && WellFormed(sig) && SignatureOutput(sig) in {Leaf(Boolean), Leaf(Contin)}
             && InputsMatch(inputs, SignatureInputs(sig)) && NegatesBooleans(t, SignatureInputs(sig))
    ensures Fine(MixedEval(t, inputs, m), SignatureOutput(InferType(t)))
  {
    InferTypeParts(t);
    var args := NarrowAll(LeavesOf(t, Root), []);
    InputsMatchArguments(inputs, args, Opens(t));
    NegatesArguments(t, args, Opens(t));
    WellTypedEval(t, args, inputs, m);
  }

  lemma {:induction false} InputsMatchArguments(inputs: seq<Vertex>, args: seq<TypeTree>, n: nat)
    requires InputsMatch(inputs, args + Contins(n))
    ensures InputsMatch(inputs, args)
  {
    assert forall i | 0 <= i < |args| :: (args + Contins(n))[i] == args[i];
  }

  // ---------------------------------------------------------------- why the provisos are there

  /** Every operator in the program is one of the scalar language. */
  predicate ScalarProgram(t: ComboTree) {
    && (t.op.Op? ==> ScalarBuiltin(t.op.b))
    && forall i | 0 <= i < |t.kids| :: ScalarProgram(t.kids[i])
  }

  predicate Sensible(o: Outcome) {
    o.Overflow? || (o.Val? && (IsBoolean(o.v) || o.v.Num?))
  }

  /** The program and all programs in it give a truth value, a number or an overflow on
      all inputs of the argument types. */
  ghost predicate RunsThroughout(t: ComboTree, args: seq<TypeTree>) {
    && (forall inputs, m | InputsMatch(inputs, args) :: Sensible(MixedEval(t, inputs, m)))
    && forall i | 0 <= i < |t.kids| :: RunsThroughout(t.kids[i], args)
  }

  /** The provisos are exact: where inference gives a well-formed signature with a
      boolean or contin result, they hold if and only if the program runs throughout. */
  lemma {:induction false} RunsThroughoutExactly(t: ComboTree)
    requires ScalarProgram(t)
    requires var sig := InferType(t); sig.op.Lambda? ==> sig.kids != []
    requires var sig := InferType(t); WellFormed(sig) && SignatureOutput(sig) in {Leaf(Boolean), Leaf(Contin)}
    ensures var args := NarrowAll(LeavesOf(t, Root), []);
            RunsThroughout(t, args) <==> Operable(t) && NegatesBooleans(t, args)
  {
    var args := NarrowAll(LeavesOf(t, Root), []);
    if Operable(t) && NegatesBooleans(t, args) {
      InferTypeParts(t);
      TypedRunsThroughout(t, args);
    }
    if RunsThroughout(t, args) { ProvisosHold(t, args); }
  }

  lemma {:induction false} TypedRunsThroughout(t: ComboTree, args: seq<TypeTree>)
    requires LeafTypes(args) && Ready(t, args) && TypeOf(t, args) in {Leaf(Boolean), Leaf(Contin)}
    ensures RunsThroughout(t, args)
    decreases t
  {
    forall inputs, m | InputsMatch(inputs, args) ensures Sensible(MixedEval(t, inputs, m)) {
      WellTypedEval(t, args, inputs, m);
    }
    if t.kids != [] {
      OperandsAreScalar(t, args);
      forall i | 0 <= i < |t.kids| ensures RunsThroughout(t.kids[i], args) {
        TypedRunsThroughout(t.kids[i], args);
      }
    }
  }

  /** The operands of a typed operator have scalar types. */
  lemma {:induction false} OperandsAreScalar(t: ComboTree, args: seq<TypeTree>)
    requires LeafTypes(args) && Ready(t, args) && t.kids != [] && TypeOf(t, args) in {Leaf(Boolean), Leaf(Contin)}
    ensures forall i | 0 <= i < |t.kids| :: Ready(t.kids[i], args) && TypeOf(t.kids[i], args) in {Leaf(Boolean), Leaf(Contin)}
  {
    var b, ts := t.op.b, TypesOf(t.kids, args);
    TableIsElementary(b);
    if TypeOfBuiltin(b).Fixed? {
      var ps := TypeOfBuiltin(b).params;
      EachInherits(ts, Leaves(ps));
      forall i | 0 <= i < |t.kids| ensures TypeOf(t.kids[i], args) in {Leaf(Boolean), Leaf(Contin)} {
        assert Inherit(ts[i], Leaves(ps)[i]);
        ParametersAreScalar(b, i);
      }
    } else {
      AllInheritSame(ts, Leaf(TypeOfBuiltin(b).param));
      assert forall i | 0 <= i < |t.kids| :: ts[i] == TypeOf(t.kids[i], args);
    }
  }

  /** Inputs of the argument types, with a number wherever there may be one. */
  function Sample(args: seq<TypeTree>): (inputs: seq<Vertex>)
    ensures InputsMatch(inputs, args) && |inputs| == |args|
    ensures forall i | 0 <= i < |args| && args[i] != Leaf(Boolean) :: inputs[i] == Num(0.0)
  {
    seq(|args|, i requires 0 <= i < |args| => if args[i] == Leaf(Boolean) then Op(True) else Num(0.0))
  }

  lemma {:induction false} BareIsSenseless(t: ComboTree, inputs: seq<Vertex>, m: Math)
    requires t.op.Op? && ScalarBuiltin(t.op.b) && !RunsBare(t.op.b) && Arity(t.op) != 0 && t.kids == []
    ensures !Sensible(MixedEval(t, inputs, m))
  {
    match t.op.b
    case ContinIf => assert Cond(t.kids, inputs, m) == Stuck;
    case _ =>
  }

  lemma {:induction false} NegatedIsBoolean(i: nat, args: seq<TypeTree>)
    requires var inputs := Sample(args); i < |inputs| && Sensible(Negate(Val(inputs[i])))
    ensures ArgType(i, args) == Leaf(Boolean)
  {
  }

  /** What runs throughout, of whatever types, meets the provisos. */
  lemma {:induction false} ProvisosHold(t: ComboTree, args: seq<TypeTree>)
    requires ScalarProgram(t) && RunsThroughout(t, args)
    ensures Operable(t) && NegatesBooleans(t, args)
    decreases t
  {
    var inputs, m := Sample(args), Math(x => Finite(0.0), x => Finite(0.0), x => 0.0);
    assert Sensible(MixedEval(t, inputs, m));
    if t.op.Op? && !RunsBare(t.op.b) && Arity(t.op) != 0 && t.kids == [] { BareIsSenseless(t, inputs, m); }
    if t.op.Arg? && t.op.negated { NegatedIsBoolean(t.op.idx, args); }
    forall i | 0 <= i < |t.kids| ensures Operable(t.kids[i]) && NegatesBooleans(t.kids[i], args) {
      ProvisosHold(t.kids[i], args);
    }
  }

  /** An operator without operands is typed as a function and lends its parameters
      to the program around it: and(0<) has type ->(contin boolean).  The
      interpreter looks for the missing operand and is stuck on every input. */
  lemma {:induction false} UnsaturatedProgramIsTypedButStuck(x: real, m: Math)
    ensures InferType(AndOfBarePositive()) == Node(Lambda, [Leaf(Contin), Leaf(Boolean)])
    ensures MixedEval(AndOfBarePositive(), [Num(x)], m) == Stuck
  {
    UnsaturatedLeaves();
    UnsaturatedReduction();
    BarePositiveIsStuck([Num(x)], m);
  }

  lemma {:induction false} BarePositiveIsStuck(inputs: seq<Vertex>, m: Math)
    ensures MixedEval(AndOfBarePositive(), inputs, m) == Stuck
  {
    var k: ComboTree := Node(Op(GreaterThanZero), []);
    assert BooleanEval(k, inputs, m) == Stuck;
    assert Until(False, True, [k], inputs, m) == Stuck;
  }

  function AndOfBarePositive(): ComboTree { Node(Op(And), [Node(Op(GreaterThanZero), [])]) }

  lemma {:induction false} UnsaturatedLeaves()
    ensures NarrowAll(LeavesOf(AndOfBarePositive(), Root), []) == []
  {
    var t := AndOfBarePositive();
    assert LeavesBelow(t.op, t.kids[1..], 1) == [];
    assert LeavesOf(t, Root) == [LeafAt(Op(GreaterThanZero), Below(t.op, 0))];
    assert NarrowAll([], []) == [];
  }

  lemma {:induction false} UnsaturatedReduction()
    ensures Reduce(GetTypeTree(AndOfBarePositive()), []) == Node(Lambda, [Leaf(Contin), Leaf(Boolean)])
  {
    var listed, arg := Node(ArgList, [Leaf(Boolean)]), Node(Lambda, [Leaf(Contin), Leaf(Boolean)]);
    var params := [listed, Leaf(Boolean)];
    assert Leaves([Contin]) == [Leaf(Contin)];
    UnsaturatedTypeTree(listed, arg, params);
    assert Normal(Leaf(Boolean)) && Normal(Leaf(Contin));
    UnsaturatedApplication(listed, arg, params);
  }

  lemma {:induction false} UnsaturatedTypeTree(listed: TypeTree, arg: TypeTree, params: seq<TypeTree>)
    requires arg == Signature(GreaterThanZero) && params == [listed, Leaf(Boolean)]
    requires listed == Node(ArgList, [Leaf(Boolean)])
    ensures GetTypeTree(AndOfBarePositive()) == Node(Application, [Node(Lambda, params), arg])
  {
    var t := AndOfBarePositive();
    assert GetTypeTree(t.kids[0]) == arg;
    assert GetTypeTrees(t.kids) == [arg];
  }

  lemma {:induction false} UnsaturatedApplication(listed: TypeTree, arg: TypeTree, params: seq<TypeTree>)
    requires Normal(listed) && Normal(arg) && Normal(Leaf(Boolean))
    requires listed == Node(ArgList, [Leaf(Boolean)]) && arg == Node(Lambda, [Leaf(Contin), Leaf(Boolean)])
    requires params == [listed, Leaf(Boolean)]
    ensures Reducible(Node(Application, [Node(Lambda, params), arg]))
    ensures Reduce(Node(Application, [Node(Lambda, params), arg]), []) == arg
  {
    var xs, w, open := [arg], Leaf(Boolean), [Leaf(Contin)];
    ReduceNormalAll(xs, []);
    VariadicParams(params, w, w, 1, [w]);
    TypeApplications.ApplicationInOrder(params, xs, []);
    OneOpenArgument(arg, w, xs, [w]);
    assert TypeApplications.Outcome(Some(open), [], w) == arg by {
      assert [] + open == open && open + [w] == [Leaf(Contin), w];
    }
    assert [Node(Lambda, params)] + xs == [Node(Lambda, params), arg];
  }

  lemma {:induction false} OneOpenArgument(arg: TypeTree, w: TypeTree, xs: seq<TypeTree>, ws: seq<TypeTree>)
    requires arg == Node(Lambda, [Leaf(Contin), Leaf(Boolean)]) && w == Leaf(Boolean) && xs == [arg] && ws == [w] && Reducible(arg)
    ensures TypeApplications.AllOpen(xs, ws) == Some([Leaf(Contin)])
  {
    assert xs[1..] == [] && ws[1..] == [];
    assert Inputs(arg) == [Leaf(Contin)] && Inputs(arg) + [] == Inputs(arg);
    assert Accept(arg, w) == Some(Inputs(arg));
  }

  function PlusOfNegated(): ComboTree { Node(Op(Plus), [Node(Arg(0, true), [])]) }

  /** The inference looks at the index of an argument only, so +(!$1) has type
      ->(contin contin); no contin input can be negated. */
  lemma {:induction false} NegatedContinIsTypedButStuck(t: ComboTree, x: real, m: Math)
    requires t == PlusOfNegated()
    ensures Saturated(t)
    ensures InferType(t) == Node(Lambda, [Leaf(Contin), Leaf(Contin)])
    ensures MixedEval(t, [Num(x)], m) == Stuck
  {
    NegatedIsSaturated(t);
    NegatedIsTyped(t);
    NegatedIsStuck(x, m);
  }

  lemma {:induction false} NegatedIsSaturated(t: ComboTree)
    requires t == PlusOfNegated()
    ensures Saturated(t)
  {
    assert Saturated(t.kids[0]);
  }

  lemma {:induction false} NegatedIsTyped(t: ComboTree)
    requires t == PlusOfNegated()
    ensures InferType(t) == Node(Lambda, [Leaf(Contin), Leaf(Contin)])
  {
    NegatedLeaves();
    NegatedReduction();
  }

  lemma {:induction false} NegatedIsStuck(x: real, m: Math)
    ensures MixedEval(PlusOfNegated(), [Num(x)], m) == Stuck
  {
    var k: ComboTree := Node(Arg(0, true), []);
    assert MixedEval(k, [Num(x)], m) == Negate(Val(Num(x))) == Stuck;
    assert ContinEval(k, [Num(x)], m) == Stuck;
    assert Sum(0.0, [k], [Num(x)], m) == Stuck;
  }

  lemma {:induction false} NegatedLeaves()
    ensures NarrowAll(LeavesOf(PlusOfNegated(), Root), []) == [Leaf(Contin)]
  {
    var t := PlusOfNegated();
    var leaf := LeafAt(Arg(0, true), Below(t.op, 0));
    assert LeavesBelow(t.op, t.kids[1..], 1) == [];
    assert LeavesOf(t, Root) == [leaf];
    assert NarrowArgType(leaf, []) == [Leaf(Contin)];
    assert NarrowAll([leaf][1..], [Leaf(Contin)]) == [Leaf(Contin)];
  }

  lemma {:induction false} NegatedReduction()
    ensures ArgTypes([Leaf(Contin)])
    ensures Reduce(GetTypeTree(PlusOfNegated()), [Leaf(Contin)]) == Leaf(Contin)
  {
    var t, args := PlusOfNegated(), [Leaf(Contin)];
    LeafTypesAreArgTypes(args);
    assert Saturated(t.kids[0]);
    NothingOpen(t);
    ReduceIsTypeOf(t, args);
    NegatedTypeOf(t, args);
  }

  lemma {:induction false} NegatedTypeOf(t: ComboTree, args: seq<TypeTree>)
    requires t == PlusOfNegated() && args == [Leaf(Contin)] && LeafTypes(args) && Operable(t)
    ensures TypeOf(t, args) == Leaf(Contin)
  {
    var ts := TypesOf(t.kids, args);
    assert ts == [Leaf(Contin)] && AllInherit(ts[1..], Leaf(Contin));
  }
}
