/** Type inference for Combo programs. */
module TypeInference {
  import opened Options
  import opened Trees
  import opened TypeTrees
  import opened TypeReduce
  import opened TypeIntersection
  import opened TypeMeets
  import opened Combo

  // ---------------------------------------------------------------- signatures

  /** The three forms of type in the table of builtins: a constant, a function of
      any number of inputs of one type, and a function of fixed inputs. */
  datatype BuiltinType =
    | Constant(result: TypeNode)
    | Variadic(param: TypeNode, result: TypeNode)
    | Fixed(params: seq<TypeNode>, result: TypeNode)

  function TypeOfBuiltin(b: Builtin): BuiltinType {
    match b
    case True => Constant(Boolean)
    case False => Constant(Boolean)
    case And => Variadic(Boolean, Boolean)
    case Or => Variadic(Boolean, Boolean)
    case Not => Fixed([Boolean], Boolean)
    case Plus => Variadic(Contin, Contin)
    case Times => Variadic(Contin, Contin)
    case Div => Fixed([Contin, Contin], Contin)
    case Exp => Fixed([Contin], Contin)
    case Log => Fixed([Contin], Contin)
    case Sin => Fixed([Contin], Contin)
    case GreaterThanZero => Fixed([Contin], Boolean)
    case Impulse => Fixed([Boolean], Contin)
    case ContinIf => Fixed([Boolean, Contin, Contin], Contin)
    case List => Variadic(Unknown, ListType)
    case Car => Fixed([ListType], Unknown)
    case Cdr => Fixed([ListType], ListType)
    case Cons => Fixed([Unknown, ListType], ListType)
    case Foldr => Fixed([Unknown, Unknown, ListType], Unknown)
    case Foldl => Fixed([Unknown, Unknown, ListType], Unknown)
  }

  predicate ElementaryNode(n: TypeNode) { !n.Operator() && !n.Argument? && !n.IllFormed? }

  lemma {:induction false} TableIsElementary(b: Builtin)
    ensures ElementaryNode(TypeOfBuiltin(b).result)
    ensures TypeOfBuiltin(b).Variadic? ==> ElementaryNode(TypeOfBuiltin(b).param)
    ensures TypeOfBuiltin(b).Fixed? ==> TypeOfBuiltin(b).params != [] && forall i | 0 <= i < |TypeOfBuiltin(b).params| :: ElementaryNode(TypeOfBuiltin(b).params[i])
  {
  }

  function Leaves(ns: seq<TypeNode>): (r: seq<TypeTree>)
    ensures |r| == |ns|
    ensures forall i | 0 <= i < |ns| :: r[i] == Leaf(ns[i])
  {
    seq(|ns|, i requires 0 <= i < |ns| => Leaf(ns[i]))
  }

  /** The type tree of a builtin. */
  function Signature(b: Builtin): TypeTree {
    match TypeOfBuiltin(b)
    case Constant(r) => Leaf(r)
    case Variadic(p, r) => Node(Lambda, [Node(ArgList, [Leaf(p)]), Leaf(r)])
    case Fixed(ps, r) => Node(Lambda, Leaves(ps) + [Leaf(r)])
  }

  lemma {:induction false} SignatureReducible(b: Builtin)
    ensures Reducible(Signature(b)) && Signature(b).op != Application
    ensures Signature(b).op.Lambda? ==> VarargLast(Signature(b).kids)
  {
    TableIsElementary(b);
    forall n | ElementaryNode(n) ensures Reducible(Leaf(n)) {}
  }

  /** Number of inputs; -1 for a variable number, 0 for a constant. */
  function Arity(v: Vertex): int {
    match v
    case Arg(_, _) => 1
    case Num(_) => 0
    case Op(b) =>
      match TypeOfBuiltin(b)
      case Constant(_) => 0
      case Variadic(_, _) => -1
      case Fixed(ps, _) => |ps|
  }

  /** Type of the input at position i of v, where v has one. */
  function InputType(v: Vertex, i: nat): TypeTree
    requires Arity(v) < 0 || i < Arity(v)
  {
    match v
    case Arg(_, _) => Leaf(Unknown)
    case Op(b) => Leaf(if Arity(v) < 0 then TypeOfBuiltin(b).param else TypeOfBuiltin(b).params[i])
  }

  // ---------------------------------------------------------------- inference

  function VertexType(v: Vertex): TypeTree {
    match v
    case Arg(i, _) => Leaf(Argument(i))
    case Num(_) => Leaf(Contin)
    case Op(b) => Signature(b)
  }

  lemma {:induction false} VertexTypeReducible(v: Vertex)
    ensures Reducible(VertexType(v)) && VertexType(v).op != Application
    ensures VertexType(v).op.Lambda? ==> VarargLast(VertexType(v).kids)
  {
    if v.Op? { SignatureReducible(v.b); }
  }

  /** The unreduced type of a program: applications in place of operators with operands. */
  function GetTypeTree(t: ComboTree): (r: TypeTree)
    ensures Reducible(r)
    ensures t.kids == [] ==> r == VertexType(t.op)
    decreases t
  {
    VertexTypeReducible(t.op);
    if t.kids == [] then VertexType(t.op)
    else Node(Application, [VertexType(t.op)] + GetTypeTrees(t.kids))
  }

  function GetTypeTrees(ts: seq<ComboTree>): (r: seq<TypeTree>)
    ensures ReducibleAll(r) && |r| == |ts|
    ensures forall i | 0 <= i < |ts| :: r[i] == GetTypeTree(ts[i])
    decreases ts
  {
    if ts == [] then [] else [GetTypeTree(ts[0])] + GetTypeTrees(ts[1..])
  }

  /** A leaf in its context: its vertex, its parent's vertex and its position below it. */
  datatype Place = Root | Below(parent: Vertex, position: nat)

  datatype LeafAt = LeafAt(v: Vertex, place: Place)

  function LeavesOf(t: ComboTree, place: Place): seq<LeafAt>
    decreases t
  {
    if t.kids == [] then [LeafAt(t.op, place)] else LeavesBelow(t.op, t.kids, 0)
  }

  function LeavesBelow(parent: Vertex, ts: seq<ComboTree>, position: nat): seq<LeafAt>
    decreases ts
  {
    if ts == [] then []
    else LeavesOf(ts[0], Below(parent, position)) + LeavesBelow(parent, ts[1..], position + 1)
  }

  /** The type a leaf is expected to have where it stands. */
  function ExpectedType(place: Place): TypeTree {
    match place
    case Root => Leaf(Unknown)
    case Below(v, i) =>
      if Arity(v) < 0 || i < Arity(v) then InputType(v, i) else Leaf(IllFormed)
  }

  function SetArgType(i: nat, t: TypeTree, args: seq<TypeTree>): (r: seq<TypeTree>)
    ensures |r| == if i < |args| then |args| else i + 1
    ensures forall k | 0 <= k < |r| :: r[k] == if k == i then t else ArgType(k, args)
  {
    if i < |args| then args[i := t]
    else args + seq(i - |args|, _ => Leaf(Unknown)) + [t]
  }

  /** Types without structure: what the inference works with. */
  predicate LeafType(t: TypeTree) {
    t.kids == [] && !t.op.Operator() && !t.op.Argument?
  }

  predicate LeafTypes(args: seq<TypeTree>) {
    forall i | 0 <= i < |args| :: LeafType(args[i])
  }

  function NarrowArgType(leaf: LeafAt, args: seq<TypeTree>): (r: seq<TypeTree>)
    requires LeafTypes(args)
    ensures LeafTypes(r)
  {
    match leaf.v
    case Arg(i, _) =>
      ExpectedIsLeaf(leaf.place);
      SetArgType(i, Intersect(ArgType(i, args), ExpectedType(leaf.place)), args)
    case _ => args
  }

  lemma {:induction false} ExpectedIsLeaf(place: Place)
    ensures LeafType(ExpectedType(place))
  {
    if place.Below? && place.parent.Op? { TableIsElementary(place.parent.b); }
  }

  function NarrowAll(leaves: seq<LeafAt>, args: seq<TypeTree>): (r: seq<TypeTree>)
    requires LeafTypes(args)
    ensures LeafTypes(r)
  {
    if leaves == [] then args else NarrowAll(leaves[1..], NarrowArgType(leaves[0], args))
  }

  /** The leaf is an occurrence of argument i. */
  predicate IsArg(leaf: LeafAt, i: nat) { leaf.v.Arg? && leaf.v.idx == i }

  /** t inherits from the type expected of argument i wherever it occurs. */
  ghost predicate BelowContexts(t: TypeTree, leaves: seq<LeafAt>, i: nat)
    requires Shaped(t)
  {
    forall n | 0 <= n < |leaves| && IsArg(leaves[n], i) ::
      Shaped(ExpectedType(leaves[n].place)) && Inherit(t, ExpectedType(leaves[n].place))
  }

  /** The narrowed type of an argument is the greatest lower bound of its type before
      and the types that its contexts expect, if they have one. */
  ghost predicate IsMeet(t: TypeTree, before: TypeTree, leaves: seq<LeafAt>, i: nat)
    requires Shaped(t) && Shaped(before)
  {
    && (WellFormed(t) ==> Inherit(t, before) && BelowContexts(t, leaves, i))
    && forall x | Shaped(x) && Inherit(x, before) && BelowContexts(x, leaves, i) :: Inherit(x, t)
  }

  lemma {:induction false} NothingBelowIllFormed(x: TypeTree)
    requires Shaped(x)
    ensures !Inherit(x, Leaf(IllFormed))
  {
    if x.op.Union? { NothingBelowIllFormed(x.kids[0]); }
  }

  lemma {:induction false} LeafTypesMeet(a: TypeTree, b: TypeTree)
    requires LeafType(a) && LeafType(b)
    ensures var m := Intersect(a, b);
            && LeafType(m) && (WellFormed(m) ==> Inherit(m, a) && Inherit(m, b))
            && forall x | Shaped(x) && Inherit(x, a) && Inherit(x, b) :: Inherit(x, m)
  {
    forall x | Shaped(x) && Inherit(x, a) && Inherit(x, b) ensures Inherit(x, Intersect(a, b)) {
      if a.op.IllFormed? || b.op.IllFormed? {
        NothingBelowIllFormed(x);
      } else {
        IntersectIsGreatest(a, b, x);
      }
    }
  }

  lemma {:induction false} NarrowAllIsMeet(leaves: seq<LeafAt>, args: seq<TypeTree>, i: nat)
    requires LeafTypes(args)
    ensures IsMeet(ArgType(i, NarrowAll(leaves, args)), ArgType(i, args), leaves, i)
  {
    if leaves == [] {
      LeafTypesMeet(ArgType(i, args), ArgType(i, args));
    } else {
      var next := NarrowArgType(leaves[0], args);
      NarrowAllIsMeet(leaves[1..], next, i);
      ExpectedIsLeaf(leaves[0].place);
      if IsArg(leaves[0], i) {
        assert ArgType(i, next) == Intersect(ArgType(i, args), ExpectedType(leaves[0].place));
      }
      MeetExtends(leaves, ArgType(i, NarrowAll(leaves, args)), ArgType(i, next), ArgType(i, args), i);
    }
  }

  lemma {:induction false} ContextsExtend(x: TypeTree, leaves: seq<LeafAt>, i: nat)
    requires leaves != [] && Shaped(x) && LeafType(ExpectedType(leaves[0].place))
    ensures BelowContexts(x, leaves, i) <==>
            (IsArg(leaves[0], i) ==> Inherit(x, ExpectedType(leaves[0].place))) && BelowContexts(x, leaves[1..], i)
  {
    assert forall n | 0 < n < |leaves| :: leaves[n] == leaves[1..][n - 1];
  }

  lemma {:induction false} MeetExtends(leaves: seq<LeafAt>, t: TypeTree, next: TypeTree, before: TypeTree, i: nat)
    requires leaves != [] && LeafType(t) && LeafType(next) && LeafType(before) && IsMeet(t, next, leaves[1..], i)
    requires LeafType(ExpectedType(leaves[0].place))
    requires next == if IsArg(leaves[0], i) then Intersect(before, ExpectedType(leaves[0].place)) else before
    ensures IsMeet(t, before, leaves, i)
  {
    var e := ExpectedType(leaves[0].place);
    if IsArg(leaves[0], i) { LeafTypesMeet(before, e); }
    if WellFormed(t) {
      NothingBelowIllFormed(t);
      InheritTransitive(t, next, before);
      if IsArg(leaves[0], i) { InheritTransitive(t, next, e); }
      ContextsExtend(t, leaves, i);
    }
    forall x | Shaped(x) && Inherit(x, before) && BelowContexts(x, leaves, i) ensures Inherit(x, t) {
      ContextsExtend(x, leaves, i);
    }
  }

  /** The loop over the leaves that narrows the type of each argument in turn. */
  method InferArgTypes(t: ComboTree) returns (args: seq<TypeTree>)
    ensures args == NarrowAll(LeavesOf(t, Root), []) && LeafTypes(args)
    ensures forall i: nat :: IsMeet(ArgType(i, args), Leaf(Unknown), LeavesOf(t, Root), i)
  {
    args := [];
    var leaves := LeavesOf(t, Root);
    var n := 0;
    while n < |leaves|
      invariant n <= |leaves| && LeafTypes(args)
      invariant NarrowAll(leaves, []) == NarrowAll(leaves[n..], args)
    {
      args := NarrowArgType(leaves[n], args);
      n := n + 1;
    }
    forall i: nat ensures IsMeet(ArgType(i, args), Leaf(Unknown), LeavesOf(t, Root), i) {
      NarrowAllIsMeet(leaves, [], i);
    }
  }

  function InsertArgTypes(args: seq<TypeTree>, t: TypeTree): TypeTree {
    if args == [] then t
    else Node(Lambda, args + if t.op.Lambda? then t.kids else [t])
  }

  function InferType(t: ComboTree): TypeTree {
    var args := NarrowAll(LeavesOf(t, Root), []);
    InsertArgTypes(args, Reduce(GetTypeTree(t), args))
  }

  function SignatureOutput(t: TypeTree): TypeTree
    requires t.op.Lambda? ==> t.kids != []
  {
    if t.op.Lambda? then Last(t.kids) else t
  }

  /** The input types; an arg_list stands for the type it repeats. */
  function SignatureInputs(t: TypeTree): seq<TypeTree>
    requires t.op.Lambda? ==> t.kids != []
  {
    if t.op.Lambda? then Unlist(t.kids[..|t.kids| - 1]) else []
  }

  function Unlist(ts: seq<TypeTree>): (r: seq<TypeTree>)
    ensures |r| == |ts|
    ensures forall i | 0 <= i < |ts| :: r[i] == if ts[i].op.ArgList? && ts[i].kids != [] then ts[i].kids[0] else ts[i]
  {
    if ts == [] then []
    else [if ts[0].op.ArgList? && ts[0].kids != [] then ts[0].kids[0] else ts[0]] + Unlist(ts[1..])
  }
}
