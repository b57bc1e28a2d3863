/** The tree-valued evaluator: lists and the two folds over them. */
module Folds {
  import opened Trees
  import opened Combo
  import opened ScalarInterpreter

  /** Fails: an assertion, an exception, or an access to a missing child or
      input.  Deeper: the evaluation nests deeper than the bound. */
  datatype Result = Tree(t: ComboTree) | Fails | Deeper

  datatype Results = Trees(ts: seq<ComboTree>) | NoTrees(r: Result)

  function Lit(b: Builtin): ComboTree { Node(Op(b), []) }

  function Call1(b: Builtin, t: ComboTree): ComboTree { Node(Op(b), [t]) }

  function ListOf(ts: seq<ComboTree>): ComboTree { Node(Op(List), ts) }

  /** The value of t, where evaluations may nest `depth` deep. */
  function Eval(t: ComboTree, inputs: seq<Vertex>, m: Math, depth: nat): Result
    decreases depth, 0, t
  {
    if depth == 0 then Deeper
    else
      match t.op
      case Arg(i, negated) =>
        if i >= |inputs| then Fails
        else if negated then AsTree(Negate(Val(inputs[i])))
        else Tree(Node(inputs[i], []))
      case Num(_) => Tree(Node(t.op, []))
      case Op(b) => EvalBuiltin(b, t.kids, inputs, m, depth)
  }

  function EvalBuiltin(b: Builtin, kids: seq<ComboTree>, inputs: seq<Vertex>, m: Math, depth: nat): Result
    requires depth > 0
    decreases depth - 1, 3
  {
    match b
    case True => Tree(Lit(b))
    case False => Tree(Lit(b))
    case And => if kids == [] then Tree(Lit(b)) else EvalUntil(False, True, kids, inputs, m, depth - 1)
    case Or => if kids == [] then Tree(Lit(b)) else EvalUntil(True, False, kids, inputs, m, depth - 1)
    case Plus => if kids == [] then Tree(Lit(b)) else EvalSum(0.0, kids, inputs, m, depth - 1)
    case Times => if kids == [] then Tree(Lit(b)) else EvalProduct(1.0, kids, inputs, m, depth - 1)
    case List =>
      (match EvalEach(kids, inputs, m, depth - 1)
       case Trees(ts) => Tree(ListOf(ts))
       case NoTrees(r) => r)
    case Car =>
      (match EvalList(kids, inputs, m, depth - 1)
       case Trees(ts) => if ts == [] then Tree(ListOf([])) else Eval(ts[0], inputs, m, depth - 1)
       case NoTrees(r) => r)
    case Cdr =>
      (match EvalList(kids, inputs, m, depth - 1)
       case Trees(ts) =>
         (match EvalEach(if ts == [] then [] else ts[1..], inputs, m, depth - 1)
          case Trees(us) => Tree(ListOf(us))
          case NoTrees(r) => r)
       case NoTrees(r) => r)
    case Cons =>
      if kids == [] then Tree(Lit(b))
      else
        (match Eval(kids[0], inputs, m, depth - 1)
         case Tree(x) =>
           if |kids| < 2 then Fails
           else (match Eval(kids[1], inputs, m, depth - 1) case Tree(rest) => Tree(ListOf([x] + rest.kids)) case r => r)
         case r => r)
    case Foldr => EvalFoldr(kids, inputs, m, depth)
    case Foldl => EvalFoldl(kids, inputs, m, depth)
    case _ => Fails
  }

  /** foldr(f v l) is v for an empty l, and else f(car(l) foldr(f v cdr(l))) with
      the two operands evaluated first. */
  function EvalFoldr(kids: seq<ComboTree>, inputs: seq<Vertex>, m: Math, depth: nat): Result
    requires depth > 0
    decreases depth - 1, 2
  {
    if kids == [] then Fails
    else
      var l := Last(kids);
      if l.kids == [] then if |kids| < 2 then Fails else Eval(kids[|kids| - 2], inputs, m, depth - 1)
      else
        match Eval(Call1(Car, l), inputs, m, depth - 1)
        case Tree(x) =>
          (match Eval(Call1(Cdr, l), inputs, m, depth - 1)
           case Tree(rest) =>
             (match Eval(Node(Op(Foldr), kids[..|kids| - 1] + [rest]), inputs, m, depth - 1)
              case Tree(folded) =>
                var f := kids[0];
                Eval(Node(f.op, f.kids + [x, folded]), inputs, m, depth - 1)
              case r => r)
           case r => r)
        case r => r
  }

  /** foldl(f v l) is v for an empty l, and else foldl(f f(v car(l)) cdr(l)), where
      the new second operand is left unevaluated. */
  function EvalFoldl(kids: seq<ComboTree>, inputs: seq<Vertex>, m: Math, depth: nat): Result
    requires depth > 0
    decreases depth - 1, 2
  {
    if kids == [] then Fails
    else
      var l := Last(kids);
      if l.kids == [] then if |kids| < 2 then Fails else Eval(kids[|kids| - 2], inputs, m, depth - 1)
      else if |kids| < 2 then Fails
      else
        match Eval(l, inputs, m, depth - 1)
        case Tree(lst) =>
          (match Eval(Call1(Car, lst), inputs, m, depth - 1)
           case Tree(x) =>
             (match Eval(Call1(Cdr, lst), inputs, m, depth - 1)
              case Tree(rest) =>
                var f := kids[0];
                var acc := Node(f.op, f.kids + [kids[1], x]);
                Eval(Node(Op(Foldl), kids[..|kids| - 2] + [acc, rest]), inputs, m, depth - 1)
              case r => r)
           case r => r)
        case r => r
  }

  /** The elements of the list operand, evaluated only when it is not a list yet. */
  function EvalList(kids: seq<ComboTree>, inputs: seq<Vertex>, m: Math, depth: nat): Results
    decreases depth, 2
  {
    if kids == [] then NoTrees(Fails)
    else if kids[0].op == Op(List) then Trees(kids[0].kids)
    else
      match Eval(kids[0], inputs, m, depth)
      case Tree(l) => if l.op == Op(List) then Trees(l.kids) else NoTrees(Fails)
      case r => NoTrees(r)
  }

  function EvalEach(ts: seq<ComboTree>, inputs: seq<Vertex>, m: Math, depth: nat): (rs: Results)
    ensures rs.NoTrees? ==> !rs.r.Tree?
    decreases depth, 1, ts
  {
    if ts == [] then Trees([])
    else
      match Eval(ts[0], inputs, m, depth)
      case Tree(t) => (match EvalEach(ts[1..], inputs, m, depth) case Trees(us) => Trees([t] + us) case r => r)
      case r => NoTrees(r)
  }

  /** The vertex that t evaluates to; a whole tree fails. */
  function EvalVertex(t: ComboTree, inputs: seq<Vertex>, m: Math, depth: nat): Result
    decreases depth, 1, t
  {
    match Eval(t, inputs, m, depth)
    case Tree(v) => if v.kids == [] then Tree(v) else Fails
    case r => r
  }

  function EvalUntil(stop: Builtin, otherwise: Builtin, ts: seq<ComboTree>, inputs: seq<Vertex>, m: Math, depth: nat): Result
    decreases depth, 2, ts
  {
    if ts == [] then Tree(Lit(otherwise))
    else
      match EvalVertex(ts[0], inputs, m, depth)
      case Tree(v) => if v.op == Op(stop) then Tree(Lit(stop)) else EvalUntil(stop, otherwise, ts[1..], inputs, m, depth)
      case r => r
  }

  function EvalSum(acc: real, ts: seq<ComboTree>, inputs: seq<Vertex>, m: Math, depth: nat): Result
    decreases depth, 2, ts
  {
    if ts == [] then Tree(Node(Num(acc), []))
    else
      match EvalVertex(ts[0], inputs, m, depth)
      case Tree(v) => if v.op.Num? then EvalSum(acc + v.op.r, ts[1..], inputs, m, depth) else Fails
      case r => r
  }

  function EvalProduct(acc: real, ts: seq<ComboTree>, inputs: seq<Vertex>, m: Math, depth: nat): Result
    decreases depth, 2, ts
  {
    if ts == [] then Tree(Node(Num(acc), []))
    else
      match EvalVertex(ts[0], inputs, m, depth)
      case Tree(v) =>
        if !v.op.Num? then Fails
        else if Mul(acc, v.op.r) == 0.0 then Tree(Node(Num(0.0), []))
        else EvalProduct(Mul(acc, v.op.r), ts[1..], inputs, m, depth)
      case r => r
  }

  function AsTree(o: Outcome): Result {
    match o
    case Val(v) => Tree(Node(v, []))
    case _ => Fails
  }

  // ---------------------------------------------------------------- what the folds compute

  type Binary = (ComboTree, ComboTree) -> ComboTree

  function FoldRight(g: Binary, v: ComboTree, xs: seq<ComboTree>): ComboTree {
    if xs == [] then v else g(xs[0], FoldRight(g, v, xs[1..]))
  }

  function FoldLeft(g: Binary, v: ComboTree, xs: seq<ComboTree>): ComboTree
    decreases |xs|
  {
    if xs == [] then v else FoldLeft(g, g(v, xs[0]), xs[1..])
  }

  /** Every evaluation of t that may nest k deep ends with v. */
  ghost predicate Evaluates(t: ComboTree, v: ComboTree, inputs: seq<Vertex>, m: Math, k: nat) {
    forall n: nat :: n >= k ==> Eval(t, inputs, m, n) == Tree(v)
  }

  /** The elements are values already. */
  ghost predicate Settled(xs: seq<ComboTree>, inputs: seq<Vertex>, m: Math, k: nat) {
    forall i | 0 <= i < |xs| :: Evaluates(xs[i], xs[i], inputs, m, k)
  }

  /** Applied to two operands with values in l and r, the operator f gives the
      value of g, which is in d and is a value already. */
  ghost predicate Acts(f: Builtin, g: Binary, l: ComboTree -> bool, r: ComboTree -> bool, d: ComboTree -> bool,
                       inputs: seq<Vertex>, m: Math) {
    forall p, q, a, b, k: nat :: Evaluates(p, a, inputs, m, k) && Evaluates(q, b, inputs, m, k) && l(a) && r(b) ==>
      d(g(a, b)) && Evaluates(g(a, b), g(a, b), inputs, m, k + 1) && Evaluates(Node(Op(f), [p, q]), g(a, b), inputs, m, k + 2)
  }

  lemma {:induction false} EachSettled(xs: seq<ComboTree>, inputs: seq<Vertex>, m: Math, k: nat, n: nat)
    requires Settled(xs, inputs, m, k) && n >= k
    ensures EvalEach(xs, inputs, m, n) == Trees(xs)
  {
    if xs != [] {
      assert Evaluates(xs[0], xs[0], inputs, m, k);
      EachSettled(xs[1..], inputs, m, k, n);
      assert [xs[0]] + xs[1..] == xs;
    }
  }

  lemma {:induction false} ListSettled(xs: seq<ComboTree>, inputs: seq<Vertex>, m: Math, k: nat)
    requires Settled(xs, inputs, m, k)
    ensures Evaluates(ListOf(xs), ListOf(xs), inputs, m, k + 1)
    ensures xs != [] ==> Evaluates(Call1(Car, ListOf(xs)), xs[0], inputs, m, k + 1)
    ensures xs != [] ==> Evaluates(Call1(Cdr, ListOf(xs)), ListOf(xs[1..]), inputs, m, k + 1)
  {
    forall n: nat | n >= k + 1 ensures Eval(ListOf(xs), inputs, m, n) == Tree(ListOf(xs)) {
      EachSettled(xs, inputs, m, k, n - 1);
    }
    if xs != [] {
      forall n: nat | n >= k + 1
        ensures Eval(Call1(Car, ListOf(xs)), inputs, m, n) == Tree(xs[0])
        ensures Eval(Call1(Cdr, ListOf(xs)), inputs, m, n) == Tree(ListOf(xs[1..]))
      {
        assert Evaluates(xs[0], xs[0], inputs, m, k);
        assert Eval(xs[0], inputs, m, n - 1) == Tree(xs[0]);
        CarOfLiteral(xs, inputs, m, n);
        EachSettled(xs[1..], inputs, m, k, n - 1);
        CdrOfLiteral(xs, inputs, m, n);
      }
    }
  }

  lemma {:induction false} CarOfLiteral(xs: seq<ComboTree>, inputs: seq<Vertex>, m: Math, n: nat)
    requires xs != [] && n > 0
    ensures Eval(Call1(Car, ListOf(xs)), inputs, m, n) == Eval(xs[0], inputs, m, n - 1)
  {
    var kids := [ListOf(xs)];
    assert EvalList(kids, inputs, m, n - 1) == Trees(xs);
    assert Eval(Call1(Car, ListOf(xs)), inputs, m, n) == EvalBuiltin(Car, kids, inputs, m, n);
  }

  lemma {:induction false} CdrOfLiteral(xs: seq<ComboTree>, inputs: seq<Vertex>, m: Math, n: nat)
    requires xs != [] && n > 0 && EvalEach(xs[1..], inputs, m, n - 1) == Trees(xs[1..])
    ensures Eval(Call1(Cdr, ListOf(xs)), inputs, m, n) == Tree(ListOf(xs[1..]))
  {
    var kids := [ListOf(xs)];
    assert EvalList(kids, inputs, m, n - 1) == Trees(xs);
    assert Eval(Call1(Cdr, ListOf(xs)), inputs, m, n) == EvalBuiltin(Cdr, kids, inputs, m, n);
  }

  function FoldCall(b: Builtin, f: Builtin, v: ComboTree, xs: seq<ComboTree>): ComboTree {
    Node(Op(b), [Lit(f), v, ListOf(xs)])
  }

  /** foldr over a literal list is the right fold of its operator. */
  lemma {:induction false} FoldrIsFoldRight(f: Builtin, g: Binary, v: ComboTree, a: ComboTree, xs: seq<ComboTree>,
                                            elem: ComboTree -> bool, acc: ComboTree -> bool,
                                            inputs: seq<Vertex>, m: Math, k: nat)
    requires Acts(f, g, elem, acc, acc, inputs, m)
    requires Evaluates(v, a, inputs, m, k) && Evaluates(a, a, inputs, m, k) && acc(a)
    requires Settled(xs, inputs, m, k) && forall i | 0 <= i < |xs| :: elem(xs[i])
    ensures acc(FoldRight(g, a, xs)) && Evaluates(FoldRight(g, a, xs), FoldRight(g, a, xs), inputs, m, |xs| + k)
    ensures Evaluates(FoldCall(Foldr, f, v, xs), FoldRight(g, a, xs), inputs, m, 3 * |xs| + k + 1)
  {
    var call := FoldCall(Foldr, f, v, xs);
    if xs == [] {
      forall n: nat | n >= k + 1 ensures Eval(call, inputs, m, n) == Tree(a) {
        assert Last(call.kids) == ListOf([]) && call.kids[|call.kids| - 2] == v;
        assert Eval(call, inputs, m, n) == EvalFoldr(call.kids, inputs, m, n) == Eval(v, inputs, m, n - 1);
      }
    } else {
      var x, rest := xs[0], xs[1..];
      var folded := FoldRight(g, a, rest);
      FoldrIsFoldRight(f, g, v, a, rest, elem, acc, inputs, m, k);
      FoldrStep(f, g, v, xs, folded, elem, acc, inputs, m, k);
    }
  }

  lemma {:induction false} FoldrStep(f: Builtin, g: Binary, v: ComboTree, xs: seq<ComboTree>, folded: ComboTree,
                  elem: ComboTree -> bool, acc: ComboTree -> bool, inputs: seq<Vertex>, m: Math, k: nat)
    requires Acts(f, g, elem, acc, acc, inputs, m) && xs != [] && Settled(xs, inputs, m, k)
    requires elem(xs[0]) && acc(folded) && Evaluates(folded, folded, inputs, m, |xs| - 1 + k)
    requires Evaluates(FoldCall(Foldr, f, v, xs[1..]), folded, inputs, m, 3 * |xs| + k - 2)
    ensures acc(g(xs[0], folded)) && Evaluates(g(xs[0], folded), g(xs[0], folded), inputs, m, |xs| + k)
    ensures Evaluates(FoldCall(Foldr, f, v, xs), g(xs[0], folded), inputs, m, 3 * |xs| + k + 1)
  {
    var x, rest, call := xs[0], xs[1..], FoldCall(Foldr, f, v, xs);
    var j := |xs| - 1 + k;
    ListSettled(xs, inputs, m, k);
    assert Evaluates(x, x, inputs, m, j) by { assert Evaluates(xs[0], xs[0], inputs, m, k); }
    var applied := Node(Op(f), [x, folded]);
    assert Evaluates(applied, g(x, folded), inputs, m, j + 2);
    forall n: nat | n >= 3 * |xs| + k + 1 ensures Eval(call, inputs, m, n) == Tree(g(x, folded)) {
      var l := Last(call.kids);
      assert l == ListOf(xs);
      assert call.kids[..|call.kids| - 1] + [ListOf(rest)] == FoldCall(Foldr, f, v, rest).kids;
      assert Eval(Call1(Car, l), inputs, m, n - 1) == Tree(x);
      assert Eval(Call1(Cdr, l), inputs, m, n - 1) == Tree(ListOf(rest));
      assert Eval(FoldCall(Foldr, f, v, rest), inputs, m, n - 1) == Tree(folded);
      assert Lit(f).kids + [x, folded] == [x, folded];
      assert Eval(applied, inputs, m, n - 1) == Tree(g(x, folded));
      assert EvalFoldr(call.kids, inputs, m, n) == Tree(g(x, folded));
      assert Eval(call, inputs, m, n) == EvalBuiltin(Foldr, call.kids, inputs, m, n);
    }
  }

  /** foldl over a literal list is the left fold of its operator, although each
      step only wraps the accumulator in one more call. */
  lemma {:induction false} FoldlIsFoldLeft(f: Builtin, g: Binary, v: ComboTree, a: ComboTree, xs: seq<ComboTree>,
                                           elem: ComboTree -> bool, acc: ComboTree -> bool,
                                           inputs: seq<Vertex>, m: Math, k: nat, j: nat)
    requires Acts(f, g, acc, elem, acc, inputs, m) && j <= k
    requires Evaluates(v, a, inputs, m, k) && acc(a)
    requires Settled(xs, inputs, m, j) && forall i | 0 <= i < |xs| :: elem(xs[i])
    ensures acc(FoldLeft(g, a, xs))
    ensures Evaluates(FoldCall(Foldl, f, v, xs), FoldLeft(g, a, xs), inputs, m, 3 * |xs| + k + 1)
    decreases |xs|
  {
    var call := FoldCall(Foldl, f, v, xs);
    if xs == [] {
      forall n: nat | n >= k + 1 ensures Eval(call, inputs, m, n) == Tree(a) {
        assert Last(call.kids) == ListOf([]) && call.kids[|call.kids| - 2] == v;
        assert Eval(call, inputs, m, n) == EvalFoldl(call.kids, inputs, m, n) == Eval(v, inputs, m, n - 1);
      }
    } else {
      var x, rest := xs[0], xs[1..];
      var v', a' := Node(Op(f), [v, x]), g(a, x);
      assert Evaluates(x, x, inputs, m, k) by { assert Evaluates(xs[0], xs[0], inputs, m, j); }
      assert elem(x) && acc(a') && Evaluates(v', a', inputs, m, k + 2);
      FoldlIsFoldLeft(f, g, v', a', rest, elem, acc, inputs, m, k + 2, j);
      FoldlStep(f, v, xs, FoldLeft(g, a', rest), inputs, m, k, j);
    }
  }

  lemma {:induction false} FoldlStep(f: Builtin, v: ComboTree, xs: seq<ComboTree>, folded: ComboTree, inputs: seq<Vertex>, m: Math, k: nat, j: nat)
    requires xs != [] && Settled(xs, inputs, m, j) && j <= k
    requires Evaluates(FoldCall(Foldl, f, Node(Op(f), [v, xs[0]]), xs[1..]), folded, inputs, m, 3 * |xs| + k)
    ensures Evaluates(FoldCall(Foldl, f, v, xs), folded, inputs, m, 3 * |xs| + k + 1)
  {
    var x, rest, call := xs[0], xs[1..], FoldCall(Foldl, f, v, xs);
    var next := FoldCall(Foldl, f, Node(Op(f), [v, x]), rest);
    ListSettled(xs, inputs, m, j);
    forall n: nat | n >= 3 * |xs| + k + 1 ensures Eval(call, inputs, m, n) == Tree(folded) {
      var l := Last(call.kids);
      assert l == ListOf(xs);
      assert Lit(f).kids + [v, x] == [v, x];
      assert call.kids[..|call.kids| - 2] + [Node(Op(f), [v, x]), ListOf(rest)] == next.kids;
      assert Eval(l, inputs, m, n - 1) == Tree(l);
      assert Eval(Call1(Car, l), inputs, m, n - 1) == Tree(x);
      assert Eval(Call1(Cdr, l), inputs, m, n - 1) == Tree(ListOf(rest));
      assert Eval(next, inputs, m, n - 1) == Tree(folded);
      assert EvalFoldl(call.kids, inputs, m, n) == Tree(folded);
      assert Eval(call, inputs, m, n) == EvalBuiltin(Foldl, call.kids, inputs, m, n);
    }
  }

  predicate Commutes(g: Binary, d: ComboTree -> bool, a: ComboTree, b: ComboTree) {
    d(a) && d(b) ==> d(g(a, b)) && g(a, b) == g(b, a)
  }

  predicate Associates(g: Binary, d: ComboTree -> bool, a: ComboTree, b: ComboTree, c: ComboTree) {
    d(a) && d(b) && d(c) ==> g(g(a, b), c) == g(a, g(b, c))
  }

  /** On d, the operation g is commutative and associative. */
  ghost predicate Lawful(g: Binary, d: ComboTree -> bool) {
    && (forall a, b :: Commutes(g, d, a, b))
    && (forall a, b, c :: Associates(g, d, a, b, c))
  }

  /** Folding from either end gives the same for an operation like plus or times. */
  lemma {:induction false} FoldsAgree(g: Binary, v: ComboTree, xs: seq<ComboTree>, d: ComboTree -> bool)
    requires Lawful(g, d) && d(v) && forall i | 0 <= i < |xs| :: d(xs[i])
    ensures d(FoldRight(g, v, xs)) && FoldLeft(g, v, xs) == FoldRight(g, v, xs)
    decreases |xs|
  {
    if xs != [] {
      var x, rest := xs[0], xs[1..];
      assert Commutes(g, d, v, x);
      FoldsAgree(g, v, rest, d);
      FoldsAgree(g, g(v, x), rest, d);
      PullOut(g, v, x, rest, d);
      assert Commutes(g, d, x, FoldRight(g, v, rest));
    }
  }

  lemma {:induction false} PullOut(g: Binary, v: ComboTree, x: ComboTree, xs: seq<ComboTree>, d: ComboTree -> bool)
    requires Lawful(g, d) && d(v) && d(x) && forall i | 0 <= i < |xs| :: d(xs[i])
    ensures d(FoldRight(g, v, xs)) && FoldRight(g, g(v, x), xs) == g(x, FoldRight(g, v, xs))
  {
    if xs == [] {
      assert Commutes(g, d, v, x);
    } else {
      var y, rest := xs[0], xs[1..];
      PullOut(g, v, x, rest, d);
      var r := FoldRight(g, v, rest);
      assert Commutes(g, d, y, r) && Commutes(g, d, x, y);
      assert Associates(g, d, y, x, r) && Associates(g, d, x, y, r);
    }
  }

  // ---------------------------------------------------------------- the operators

  function Number(r: real): ComboTree { Node(Num(r), []) }

  predicate IsNumber(t: ComboTree) { t.op.Num? && t.kids == [] }

  function Added(a: ComboTree, b: ComboTree): ComboTree {
    if a.op.Num? && b.op.Num? then Number(a.op.r + b.op.r) else a
  }

  function Multiplied(a: ComboTree, b: ComboTree): ComboTree {
    if a.op.Num? && b.op.Num? then Number(Mul(a.op.r, b.op.r)) else a
  }

  lemma {:induction false} NumberSettled(t: ComboTree, inputs: seq<Vertex>, m: Math)
    requires IsNumber(t)
    ensures forall k: nat :: k > 0 ==> Evaluates(t, t, inputs, m, k)
  {
  }

  lemma {:induction false} PlusActs(inputs: seq<Vertex>, m: Math)
    ensures Acts(Plus, Added, IsNumber, IsNumber, IsNumber, inputs, m)
  {
    forall p, q, a, b, k: nat | Evaluates(p, a, inputs, m, k) && Evaluates(q, b, inputs, m, k) && IsNumber(a) && IsNumber(b)
      ensures IsNumber(Added(a, b)) && Evaluates(Added(a, b), Added(a, b), inputs, m, k + 1)
      ensures Evaluates(Node(Op(Plus), [p, q]), Added(a, b), inputs, m, k + 2)
    {
      NumberSettled(Added(a, b), inputs, m);
      forall n: nat | n >= k + 2 ensures Eval(Node(Op(Plus), [p, q]), inputs, m, n) == Tree(Added(a, b)) {
        PlusOfTwo(p, q, a, b, inputs, m, n - 1);
        assert Eval(Node(Op(Plus), [p, q]), inputs, m, n) == EvalBuiltin(Plus, [p, q], inputs, m, n);
      }
    }
  }

  lemma {:induction false} PlusOfTwo(p: ComboTree, q: ComboTree, a: ComboTree, b: ComboTree, inputs: seq<Vertex>, m: Math, n: nat)
    requires IsNumber(a) && IsNumber(b) && Eval(p, inputs, m, n) == Tree(a) && Eval(q, inputs, m, n) == Tree(b)
    ensures EvalSum(0.0, [p, q], inputs, m, n) == Tree(Added(a, b))
  {
    var ts, x, y := [p, q], a.op.r, b.op.r;
    assert ts[1..] == [q] && [q][1..] == [];
    assert EvalSum(0.0, ts, inputs, m, n) == EvalSum(0.0 + x, [q], inputs, m, n);
    assert EvalSum(x, [q], inputs, m, n) == EvalSum(x + y, [], inputs, m, n);
  }

  lemma {:induction false} TimesActs(inputs: seq<Vertex>, m: Math)
    ensures Acts(Times, Multiplied, IsNumber, IsNumber, IsNumber, inputs, m)
  {
    forall p, q, a, b, k: nat | Evaluates(p, a, inputs, m, k) && Evaluates(q, b, inputs, m, k) && IsNumber(a) && IsNumber(b)
      ensures IsNumber(Multiplied(a, b)) && Evaluates(Multiplied(a, b), Multiplied(a, b), inputs, m, k + 1)
      ensures Evaluates(Node(Op(Times), [p, q]), Multiplied(a, b), inputs, m, k + 2)
    {
      NumberSettled(Multiplied(a, b), inputs, m);
      forall n: nat | n >= k + 2 ensures Eval(Node(Op(Times), [p, q]), inputs, m, n) == Tree(Multiplied(a, b)) {
        TimesOfTwo(p, q, a, b, inputs, m, n - 1);
        assert Eval(Node(Op(Times), [p, q]), inputs, m, n) == EvalBuiltin(Times, [p, q], inputs, m, n);
      }
    }
  }

  /** Leaving out the second factor when the first is zero changes nothing. */
  lemma {:induction false} TimesOfTwo(p: ComboTree, q: ComboTree, a: ComboTree, b: ComboTree, inputs: seq<Vertex>, m: Math, n: nat)
    requires IsNumber(a) && IsNumber(b) && Eval(p, inputs, m, n) == Tree(a) && Eval(q, inputs, m, n) == Tree(b)
    ensures EvalProduct(1.0, [p, q], inputs, m, n) == Tree(Multiplied(a, b))
  {
    var ts, x, y := [p, q], a.op.r, b.op.r;
    assert ts[1..] == [q] && [q][1..] == [];
    assert Mul(1.0, x) == x && (x == 0.0 ==> Mul(x, y) == 0.0);
    if x != 0.0 {
      assert EvalProduct(1.0, ts, inputs, m, n) == EvalProduct(x, [q], inputs, m, n);
      assert EvalProduct(x, [q], inputs, m, n) == Tree(Number(Mul(x, y)));
    }
  }

  predicate IsConstant(t: ComboTree) { t.kids == [] && (t.op.Num? || IsBoolean(t.op)) }

  predicate IsConstantList(t: ComboTree) { t.op == Op(List) && forall i | 0 <= i < |t.kids| :: IsConstant(t.kids[i]) }

  function Prepended(x: ComboTree, l: ComboTree): ComboTree { ListOf([x] + l.kids) }

  lemma {:induction false} ConstantsSettled(xs: seq<ComboTree>, inputs: seq<Vertex>, m: Math)
    requires forall i | 0 <= i < |xs| :: IsConstant(xs[i])
    ensures Settled(xs, inputs, m, 1)
    ensures Evaluates(ListOf(xs), ListOf(xs), inputs, m, 2)
  {
    forall i | 0 <= i < |xs| ensures Evaluates(xs[i], xs[i], inputs, m, 1) {
      forall n: nat | n >= 1 ensures Eval(xs[i], inputs, m, n) == Tree(xs[i]) {
        var t := xs[i];
        assert t == Node(t.op, []);
        if t.op.Op? { assert Eval(t, inputs, m, n) == EvalBuiltin(t.op.b, [], inputs, m, n); }
      }
    }
    ListSettled(xs, inputs, m, 1);
  }

  lemma {:induction false} ConsActs(inputs: seq<Vertex>, m: Math)
    ensures Acts(Cons, Prepended, IsConstant, IsConstantList, IsConstantList, inputs, m)
  {
    forall p, q, a, b, k: nat |
      Evaluates(p, a, inputs, m, k) && Evaluates(q, b, inputs, m, k) && IsConstant(a) && IsConstantList(b)
      ensures IsConstantList(Prepended(a, b)) && Evaluates(Prepended(a, b), Prepended(a, b), inputs, m, k + 1)
      ensures Evaluates(Node(Op(Cons), [p, q]), Prepended(a, b), inputs, m, k + 2)
    {
      assert k > 0 by { assert Eval(p, inputs, m, k) == Tree(a); }
      ConstantsSettled([a] + b.kids, inputs, m);
      forall n: nat | n >= k + 2 ensures Eval(Node(Op(Cons), [p, q]), inputs, m, n) == Tree(Prepended(a, b)) {
        assert Eval(Node(Op(Cons), [p, q]), inputs, m, n) == EvalBuiltin(Cons, [p, q], inputs, m, n);
        assert Eval(p, inputs, m, n - 1) == Tree(a) && Eval(q, inputs, m, n - 1) == Tree(b);
      }
    }
  }

  lemma {:induction false} PrependingRebuilds(xs: seq<ComboTree>)
    ensures FoldRight(Prepended, ListOf([]), xs) == ListOf(xs)
  {
    if xs != [] {
      PrependingRebuilds(xs[1..]);
      assert [xs[0]] + xs[1..] == xs;
    }
  }

  // ---------------------------------------------------------------- main results

  /** Folding cons over a list from the empty list gives the list back. */
  lemma {:induction false} FoldrConsIsIdentity(xs: seq<ComboTree>, inputs: seq<Vertex>, m: Math)
    requires forall i | 0 <= i < |xs| :: IsConstant(xs[i])
    ensures Evaluates(FoldCall(Foldr, Cons, ListOf([]), xs), ListOf(xs), inputs, m, 3 * |xs| + 3)
  {
    ConsActs(inputs, m);
    ConstantsSettled([], inputs, m);
    ConstantsSettled(xs, inputs, m);
    PrependingRebuilds(xs);
    FoldrIsFoldRight(Cons, Prepended, ListOf([]), ListOf([]), xs, IsConstant, IsConstantList, inputs, m, 2);
  }

  /** The sum of v and the elements, in any order. */
  function Total(g: (real, real) -> real, v: real, xs: seq<real>): real {
    if xs == [] then v else g(xs[0], Total(g, v, xs[1..]))
  }

  function Numbers(rs: seq<real>): (ts: seq<ComboTree>)
    ensures |ts| == |rs| && forall i | 0 <= i < |rs| :: ts[i] == Number(rs[i])
  {
    seq(|rs|, i requires 0 <= i < |rs| => Number(rs[i]))
  }

  function Plus2(x: real, y: real): real { x + y }

  /** Over numbers, foldr and foldl of plus both give the sum. */
  lemma {:induction false} FoldsOfPlus(v: real, rs: seq<real>, inputs: seq<Vertex>, m: Math)
    ensures var k := 3 * |rs| + 2;
      && Evaluates(FoldCall(Foldr, Plus, Number(v), Numbers(rs)), Number(Total(Plus2, v, rs)), inputs, m, k)
      && Evaluates(FoldCall(Foldl, Plus, Number(v), Numbers(rs)), Number(Total(Plus2, v, rs)), inputs, m, k)
  {
    PlusActs(inputs, m);
    BothFolds(Plus, Added, v, rs, inputs, m);
    TotalAdded(v, rs);
    AddedLawful();
    FoldsAgree(Added, Number(v), Numbers(rs), IsNumber);
  }

  /** Over numbers, foldr and foldl of times both give the product. */
  lemma {:induction false} FoldsOfTimes(v: real, rs: seq<real>, inputs: seq<Vertex>, m: Math)
    ensures var k := 3 * |rs| + 2;
      && Evaluates(FoldCall(Foldr, Times, Number(v), Numbers(rs)), Number(Total(Mul, v, rs)), inputs, m, k)
      && Evaluates(FoldCall(Foldl, Times, Number(v), Numbers(rs)), Number(Total(Mul, v, rs)), inputs, m, k)
  {
    TimesActs(inputs, m);
    BothFolds(Times, Multiplied, v, rs, inputs, m);
    TotalMultiplied(v, rs);
    MultipliedLawful();
    FoldsAgree(Multiplied, Number(v), Numbers(rs), IsNumber);
  }

  lemma {:induction false} BothFolds(f: Builtin, g: Binary, v: real, rs: seq<real>, inputs: seq<Vertex>, m: Math)
    requires Acts(f, g, IsNumber, IsNumber, IsNumber, inputs, m)
    ensures var xs, k := Numbers(rs), 3 * |rs| + 2;
      && Evaluates(FoldCall(Foldr, f, Number(v), xs), FoldRight(g, Number(v), xs), inputs, m, k)
      && Evaluates(FoldCall(Foldl, f, Number(v), xs), FoldLeft(g, Number(v), xs), inputs, m, k)
  {
    var xs := Numbers(rs);
    ConstantsSettled(xs, inputs, m);
    NumberSettled(Number(v), inputs, m);
    FoldrIsFoldRight(f, g, Number(v), Number(v), xs, IsNumber, IsNumber, inputs, m, 1);
    FoldlIsFoldLeft(f, g, Number(v), Number(v), xs, IsNumber, IsNumber, inputs, m, 1, 1);
  }

  lemma {:induction false} TotalAdded(v: real, rs: seq<real>)
    ensures FoldRight(Added, Number(v), Numbers(rs)) == Number(Total(Plus2, v, rs))
  {
    if rs != [] {
      TotalAdded(v, rs[1..]);
      assert Numbers(rs)[1..] == Numbers(rs[1..]);
    }
  }

  lemma {:induction false} TotalMultiplied(v: real, rs: seq<real>)
    ensures FoldRight(Multiplied, Number(v), Numbers(rs)) == Number(Total(Mul, v, rs))
  {
    if rs != [] {
      TotalMultiplied(v, rs[1..]);
      assert Numbers(rs)[1..] == Numbers(rs[1..]);
    }
  }

  lemma {:induction false} AddedLawful()
    ensures Lawful(Added, IsNumber)
  {
    forall a, b ensures Commutes(Added, IsNumber, a, b) {}
    forall a, b, c ensures Associates(Added, IsNumber, a, b, c) {}
  }

  lemma {:induction false} MultipliedLawful()
    ensures Lawful(Multiplied, IsNumber)
  {
    forall a, b ensures Commutes(Multiplied, IsNumber, a, b) {
      if IsNumber(a) && IsNumber(b) { MulLaws(a.op.r, b.op.r, 0.0); }
    }
    forall a, b, c ensures Associates(Multiplied, IsNumber, a, b, c) {
      if IsNumber(a) && IsNumber(b) && IsNumber(c) { MulLaws(a.op.r, b.op.r, c.op.r); }
    }
  }

  lemma {:induction false} MulLaws(x: real, y: real, z: real)
    ensures Mul(x, y) == Mul(y, x) && Mul(Mul(x, y), z) == Mul(x, Mul(y, z))
  {
  }

  // ---------------------------------------------------------------- lists that are not literal

  lemma {:induction false} EachGivesFirst(ts: seq<ComboTree>, us: seq<ComboTree>, inputs: seq<Vertex>, m: Math, n: nat)
    requires EvalEach(ts, inputs, m, n) == Trees(us)
    ensures |us| == |ts|
    ensures ts != [] ==> Eval(ts[0], inputs, m, n) == Tree(us[0]) && EvalEach(ts[1..], inputs, m, n) == Trees(us[1..])
  {
    if ts != [] {
      var rest := EvalEach(ts[1..], inputs, m, n).ts;
      assert us == [us[0]] + rest && us[1..] == rest;
      EachGivesFirst(ts[1..], rest, inputs, m, n);
    }
  }

  /** car and cdr of an expression for a list. */
  lemma {:induction false} CarCdrOfExpression(e: ComboTree, xs: seq<ComboTree>, inputs: seq<Vertex>, m: Math, k: nat)
    requires Evaluates(e, ListOf(xs), inputs, m, k) && Settled(xs, inputs, m, k)
    ensures Evaluates(Call1(Car, e), if xs == [] then ListOf([]) else xs[0], inputs, m, k + 1)
    ensures Evaluates(Call1(Cdr, e), ListOf(if xs == [] then [] else xs[1..]), inputs, m, k + 1)
  {
    var x, rest := if xs == [] then ListOf([]) else xs[0], if xs == [] then [] else xs[1..];
    forall n: nat | n >= k + 1
      ensures Eval(Call1(Car, e), inputs, m, n) == Tree(x)
      ensures Eval(Call1(Cdr, e), inputs, m, n) == Tree(ListOf(rest))
    {
      ElementsOfExpression(e, xs, inputs, m, k, n);
      assert Eval(Call1(Car, e), inputs, m, n) == EvalBuiltin(Car, [e], inputs, m, n);
      assert Eval(Call1(Cdr, e), inputs, m, n) == EvalBuiltin(Cdr, [e], inputs, m, n);
    }
  }

  lemma {:induction false} ElementsOfExpression(e: ComboTree, xs: seq<ComboTree>, inputs: seq<Vertex>, m: Math, k: nat, n: nat)
    requires Evaluates(e, ListOf(xs), inputs, m, k) && Settled(xs, inputs, m, k) && n > k
    ensures var es := EvalList([e], inputs, m, n - 1);
      && es.Trees? && |es.ts| == |xs|
      && (xs != [] ==> Eval(es.ts[0], inputs, m, n - 1) == Tree(xs[0]) && EvalEach(es.ts[1..], inputs, m, n - 1) == Trees(xs[1..]))
    ensures EvalEach([], inputs, m, n - 1) == Trees([])
  {
    assert Eval(e, inputs, m, n - 1) == Tree(ListOf(xs));
    if e.op == Op(List) {
      assert Eval(e, inputs, m, n) == Tree(ListOf(xs));
      assert Eval(e, inputs, m, n) == EvalBuiltin(List, e.kids, inputs, m, n);
      var each := EvalEach(e.kids, inputs, m, n - 1);
      assert each.Trees? && ListOf(each.ts) == ListOf(xs);
      EachGivesFirst(e.kids, xs, inputs, m, n - 1);
    } else if xs != [] {
      assert Evaluates(xs[0], xs[0], inputs, m, k);
      EachSettled(xs[1..], inputs, m, k, n - 1);
    }
  }

  /** One round of foldr over any expression for a list that has operands. */
  lemma {:induction false} FoldrRound(f: Builtin, v: ComboTree, e: ComboTree, x: ComboTree, rest: seq<ComboTree>, folded: ComboTree,
                   inputs: seq<Vertex>, m: Math, n: nat)
    requires e.kids != [] && n > 0
    requires Eval(Call1(Car, e), inputs, m, n - 1) == Tree(x)
    requires Eval(Call1(Cdr, e), inputs, m, n - 1) == Tree(ListOf(rest))
    requires Eval(FoldCall(Foldr, f, v, rest), inputs, m, n - 1) == Tree(folded)
    ensures Eval(Node(Op(Foldr), [Lit(f), v, e]), inputs, m, n) == Eval(Node(Op(f), [x, folded]), inputs, m, n - 1)
  {
    var call := Node(Op(Foldr), [Lit(f), v, e]);
    assert Last(call.kids) == e;
    assert call.kids[..|call.kids| - 1] + [ListOf(rest)] == FoldCall(Foldr, f, v, rest).kids;
    assert Lit(f).kids + [x, folded] == [x, folded];
    assert EvalFoldr(call.kids, inputs, m, n) == Eval(Node(Op(f), [x, folded]), inputs, m, n - 1);
    assert Eval(call, inputs, m, n) == EvalBuiltin(Foldr, call.kids, inputs, m, n);
  }

  /** foldr over any expression for a list: the right fold, save where an expression
      with operands comes out empty.  Then the operator is applied to the empty list
      itself and the initial value. */
  lemma {:induction false} FoldrOverExpression(f: Builtin, g: Binary, v: ComboTree, a: ComboTree, e: ComboTree, xs: seq<ComboTree>,
                                               elem: ComboTree -> bool, acc: ComboTree -> bool,
                                               inputs: seq<Vertex>, m: Math, k: nat, n: nat)
    requires Acts(f, g, elem, acc, acc, inputs, m)
    requires Evaluates(v, a, inputs, m, k) && Evaluates(a, a, inputs, m, k) && acc(a)
    requires Evaluates(e, ListOf(xs), inputs, m, k) && Settled(xs, inputs, m, k) && forall i | 0 <= i < |xs| :: elem(xs[i])
    requires n >= 3 * |xs| + k + 5
    ensures Eval(Node(Op(Foldr), [Lit(f), v, e]), inputs, m, n) ==
            if xs == [] && e.kids != [] then Eval(Node(Op(f), [ListOf([]), a]), inputs, m, n - 1)
            else Tree(FoldRight(g, a, xs))
  {
    if e.kids == [] {
      var call := Node(Op(Foldr), [Lit(f), v, e]);
      LeafIsEmptyList(e, xs, inputs, m, k);
      assert Last(call.kids) == e && call.kids[|call.kids| - 2] == v;
      assert Eval(call, inputs, m, n) == EvalFoldr(call.kids, inputs, m, n) == Eval(v, inputs, m, n - 1);
    } else {
      var x, rest := if xs == [] then ListOf([]) else xs[0], if xs == [] then [] else xs[1..];
      var folded := FoldRight(g, a, rest);
      CarCdrOfExpression(e, xs, inputs, m, k);
      FoldrIsFoldRight(f, g, v, a, rest, elem, acc, inputs, m, k);
      FoldrRound(f, v, e, x, rest, folded, inputs, m, n);
      if xs != [] { LastRound(f, g, x, folded, elem, acc, inputs, m, k, |rest|, n); }
    }
  }

  lemma {:induction false} LastRound(f: Builtin, g: Binary, x: ComboTree, folded: ComboTree, elem: ComboTree -> bool, acc: ComboTree -> bool,
                                     inputs: seq<Vertex>, m: Math, k: nat, len: nat, n: nat)
    requires Acts(f, g, elem, acc, acc, inputs, m) && elem(x) && acc(folded)
    requires Evaluates(x, x, inputs, m, k) && Evaluates(folded, folded, inputs, m, len + k) && n >= len + k + 3
    ensures Eval(Node(Op(f), [x, folded]), inputs, m, n - 1) == Tree(g(x, folded))
  {
    assert Evaluates(x, x, inputs, m, len + k);
    assert Evaluates(Node(Op(f), [x, folded]), g(x, folded), inputs, m, len + k + 2);
  }

  lemma {:induction false} LeafIsEmptyList(e: ComboTree, xs: seq<ComboTree>, inputs: seq<Vertex>, m: Math, k: nat)
    requires e.kids == [] && Evaluates(e, ListOf(xs), inputs, m, k)
    ensures xs == []
  {
    var n := k + 1;
    assert Eval(e, inputs, m, n) == Tree(ListOf(xs));
    if e.op.Op? {
      assert EvalEach([], inputs, m, n - 1) == Trees([]);
      assert EvalList([], inputs, m, n - 1) == NoTrees(Fails);
      assert EvalFoldr([], inputs, m, n) == EvalFoldl([], inputs, m, n) == Fails;
      assert Eval(e, inputs, m, n) == EvalBuiltin(e.op.b, [], inputs, m, n);
    }
    assert ListOf(xs).kids == [];
  }

  /** What the operators make of the empty list and an initial value: plus and times
      fail, cons puts the empty list in front, and and or come out right. */
  lemma {:induction false} AppliedToNothing(f: Builtin, a: ComboTree, inputs: seq<Vertex>, m: Math, n: nat)
    requires n > 3 && IsValueFor(f, a)
    ensures Eval(Node(Op(f), [ListOf([]), a]), inputs, m, n) ==
            if f.And? || f.Or? then Tree(a) else if f.Cons? then Tree(ListOf([ListOf([])] + a.kids)) else Fails
  {
    var ts := [ListOf([]), a];
    ConstantsSettled([], inputs, m);
    assert Eval(ts[0], inputs, m, n - 1) == Tree(ts[0]) && EvalVertex(ts[0], inputs, m, n - 1) == Tree(ts[0]);
    ValueSettled(f, a, inputs, m, n - 1);
    assert Eval(Node(Op(f), ts), inputs, m, n) == EvalBuiltin(f, ts, inputs, m, n);
    match f {
      case Plus => assert EvalSum(0.0, ts, inputs, m, n - 1) == Fails;
      case Times => assert EvalProduct(1.0, ts, inputs, m, n - 1) == Fails;
      case And => UntilLast(False, True, ts, inputs, m, n - 1);
      case Or => UntilLast(True, False, ts, inputs, m, n - 1);
      case Cons =>
    }
  }

  lemma {:induction false} UntilLast(stop: Builtin, otherwise: Builtin, ts: seq<ComboTree>, inputs: seq<Vertex>, m: Math, n: nat)
    requires |ts| == 2 && EvalVertex(ts[0], inputs, m, n) == Tree(ListOf([])) && EvalVertex(ts[1], inputs, m, n) == Tree(ts[1])
    requires stop != List && ts[1] in {Lit(stop), Lit(otherwise)}
    ensures EvalUntil(stop, otherwise, ts, inputs, m, n) == Tree(ts[1])
  {
    assert ts[1..] == [ts[1]];
    assert EvalUntil(stop, otherwise, ts, inputs, m, n) == EvalUntil(stop, otherwise, [ts[1]], inputs, m, n);
    UntilOne(stop, otherwise, ts[1], inputs, m, n);
  }

  lemma {:induction false} UntilOne(stop: Builtin, otherwise: Builtin, t: ComboTree, inputs: seq<Vertex>, m: Math, n: nat)
    requires EvalVertex(t, inputs, m, n).Tree?
    requires var v := EvalVertex(t, inputs, m, n).t; v in {Lit(stop), Lit(otherwise)}
    ensures EvalUntil(stop, otherwise, [t], inputs, m, n) == EvalVertex(t, inputs, m, n)
  {
    assert [t][1..] == [];
    assert EvalUntil(stop, otherwise, [], inputs, m, n) == Tree(Lit(otherwise));
  }

  lemma {:induction false} ValueSettled(f: Builtin, a: ComboTree, inputs: seq<Vertex>, m: Math, n: nat)
    requires IsValueFor(f, a) && n > 2
    ensures Eval(a, inputs, m, n) == Tree(a)
  {
    if f.Cons? {
      ConstantsSettled(a.kids, inputs, m);
      assert a == ListOf(a.kids);
    } else {
      ConstantsSettled([a], inputs, m);
      assert Evaluates([a][0], [a][0], inputs, m, 1);
    }
  }

  /** The operators that fold lists of values, with the initial values they take. */
  predicate IsValueFor(f: Builtin, a: ComboTree) {
    match f
    case Plus => IsNumber(a)
    case Times => IsNumber(a)
    case And => IsTruth(a)
    case Or => IsTruth(a)
    case Cons => IsConstantList(a)
    case _ => false
  }

  predicate IsTruth(t: ComboTree) { t == Lit(True) || t == Lit(False) }

  /** What the operators compute of two values. */
  function Applied(f: Builtin): Binary {
    match f
    case Plus => Added
    case Times => Multiplied
    case And => (a, b) => if a == Lit(True) then b else Lit(False)
    case Or => (a, b) => if a == Lit(True) then Lit(True) else b
    case _ => Prepended
  }

  predicate IsElementFor(f: Builtin, x: ComboTree) { if f.Cons? then IsConstant(x) else IsValueFor(f, x) }

  lemma {:induction false} TruthActs(f: Builtin, inputs: seq<Vertex>, m: Math)
    requires f.And? || f.Or?
    ensures Acts(f, Applied(f), x => IsElementFor(f, x), x => IsValueFor(f, x), x => IsValueFor(f, x), inputs, m)
  {
    var g := Applied(f);
    forall p, q, a, b, k: nat | Evaluates(p, a, inputs, m, k) && Evaluates(q, b, inputs, m, k) && IsTruth(a) && IsTruth(b)
      ensures IsTruth(g(a, b)) && Evaluates(g(a, b), g(a, b), inputs, m, k + 1)
      ensures Evaluates(Node(Op(f), [p, q]), g(a, b), inputs, m, k + 2)
    {
      ConstantsSettled([g(a, b)], inputs, m);
      assert Evaluates([g(a, b)][0], [g(a, b)][0], inputs, m, 1);
      forall n: nat | n >= k + 2 ensures Eval(Node(Op(f), [p, q]), inputs, m, n) == Tree(g(a, b)) {
        TruthOfTwo(f, p, q, a, b, inputs, m, n - 1);
        assert Eval(Node(Op(f), [p, q]), inputs, m, n) == EvalBuiltin(f, [p, q], inputs, m, n);
      }
    }
  }

  lemma {:induction false} TruthOfTwo(f: Builtin, p: ComboTree, q: ComboTree, a: ComboTree, b: ComboTree, inputs: seq<Vertex>, m: Math, n: nat)
    requires f.And? || f.Or?
    requires IsTruth(a) && IsTruth(b) && Eval(p, inputs, m, n) == Tree(a) && Eval(q, inputs, m, n) == Tree(b)
    ensures var stop, otherwise := if f.And? then False else True, if f.And? then True else False;
            EvalUntil(stop, otherwise, [p, q], inputs, m, n) == Tree(Applied(f)(a, b))
  {
    var ts := [p, q];
    assert ts[1..] == [q];
    assert EvalVertex(p, inputs, m, n) == Tree(a) && EvalVertex(q, inputs, m, n) == Tree(b);
    UntilOne(if f.And? then False else True, if f.And? then True else False, q, inputs, m, n);
  }

  lemma {:induction false} OperatorActs(f: Builtin, inputs: seq<Vertex>, m: Math)
    requires f.Plus? || f.Times? || f.And? || f.Or? || f.Cons?
    ensures Acts(f, Applied(f), x => IsElementFor(f, x), x => IsValueFor(f, x), x => IsValueFor(f, x), inputs, m)
  {
    match f
    case Plus => PlusActs(inputs, m);
    case Times => TimesActs(inputs, m);
    case Cons => ConsActs(inputs, m);
    case _ => TruthActs(f, inputs, m);
  }

  /** The exact condition for each operator: folding it over an expression for a list of
      values gives the right fold if and only if the list is not empty, or the expression
      has no operands, or the operator is and or or. */
  lemma {:induction false} FoldrOfOperatorOverExpression(f: Builtin, v: ComboTree, e: ComboTree, xs: seq<ComboTree>,
                                                         inputs: seq<Vertex>, m: Math, k: nat, n: nat)
    requires IsValueFor(f, v) && forall i | 0 <= i < |xs| :: IsElementFor(f, xs[i])
    requires Evaluates(e, ListOf(xs), inputs, m, k) && k > 2 && n >= 3 * |xs| + k + 5
    ensures Eval(Node(Op(Foldr), [Lit(f), v, e]), inputs, m, n) == Tree(FoldRight(Applied(f), v, xs)) <==>
            xs != [] || e.kids == [] || f.And? || f.Or?
  {
    OperatorActs(f, inputs, m);
    forall j | j >= k ensures Eval(v, inputs, m, j) == Tree(v) { ValueSettled(f, v, inputs, m, j); }
    assert Settled(xs, inputs, m, k) by { ElementsSettled(f, xs, inputs, m, k); }
    FoldrOverExpression(f, Applied(f), v, v, e, xs, x => IsElementFor(f, x), x => IsValueFor(f, x), inputs, m, k, n);
    AppliedToNothing(f, v, inputs, m, n - 1);
    if f.Cons? { assert |([ListOf([])] + v.kids)| == |v.kids| + 1; }
  }

  lemma {:induction false} ElementsSettled(f: Builtin, xs: seq<ComboTree>, inputs: seq<Vertex>, m: Math, k: nat)
    requires f.Plus? || f.Times? || f.And? || f.Or? || f.Cons?
    requires k > 0 && forall i | 0 <= i < |xs| :: IsElementFor(f, xs[i])
    ensures Settled(xs, inputs, m, k)
  {
    ConstantsSettled(xs, inputs, m);
    forall i | 0 <= i < |xs| ensures Evaluates(xs[i], xs[i], inputs, m, k) {
      assert Evaluates(xs[i], xs[i], inputs, m, 1);
    }
  }

  /** Folding plus over an expression for a list of numbers gives the sum if and
      only if the list is not empty or the expression has no operands: an
      expression with operands that comes out empty has the empty list itself
      added to v, which fails. */
  lemma {:induction false} FoldrOfPlusOverExpression(v: real, e: ComboTree, rs: seq<real>, inputs: seq<Vertex>, m: Math, k: nat, n: nat)
    requires Evaluates(e, ListOf(Numbers(rs)), inputs, m, k) && k > 0 && n >= 3 * |rs| + k + 5
    ensures var call := Node(Op(Foldr), [Lit(Plus), Number(v), e]);
      && (rs != [] || e.kids == [] <==> Eval(call, inputs, m, n) == Tree(Number(Total(Plus2, v, rs))))
      && (rs == [] && e.kids != [] ==> Eval(call, inputs, m, n) == Fails)
  {
    var xs := Numbers(rs);
    PlusActs(inputs, m);
    NumberSettled(Number(v), inputs, m);
    ElementsSettled(Plus, xs, inputs, m, k);
    FoldrOverExpression(Plus, Added, Number(v), Number(v), e, xs, IsNumber, IsNumber, inputs, m, k, n);
    AppliedToNothing(Plus, Number(v), inputs, m, n - 1);
    TotalAdded(v, rs);
  }
}
