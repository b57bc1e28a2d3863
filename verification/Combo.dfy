/** Combo programs: trees of vertices. */
module Combo {
  import opened Trees

  datatype Builtin =
    | True | False
    | And | Or | Not
    | Plus | Times | Div | Exp | Log | Sin
    | GreaterThanZero | Impulse | ContinIf
    | List | Car | Cdr | Cons | Foldr | Foldl

  /** An argument counts from zero here: Arg(0, false) is $1 and Arg(0, true) is !$1. */
  datatype Vertex =
    | Arg(idx: nat, negated: bool)
    | Op(b: Builtin)
    | Num(r: real)

  type ComboTree = Tree<Vertex>

  function Truth(b: bool): Vertex { if b then Op(True) else Op(False) }

  predicate IsBoolean(v: Vertex) { v == Op(True) || v == Op(False) }
}

/** The scalar interpreter.  Reals stand for contin values, so a result that is
    not finite can only come from a division by zero or from the library
    functions, which are parameters. */
module ScalarInterpreter {
  import opened Trees
  import opened Combo

  /** A library call gives a number or a value that is not finite, of which only
      its being positive is ever looked at. */
  datatype MathResult = Finite(r: real) | NotFinite(positive: bool)

  datatype Math = Math(exp: real -> MathResult, log: real -> MathResult, sin: real -> real)

  /** Stuck: a failed assertion, an access to a missing child or input, or a
      vertex of the wrong kind. */
  datatype Outcome = Val(v: Vertex) | Overflow(positive: bool) | Stuck

  /** Value of plus and times without operands, where the operator is returned as
      a number: its position in the enumeration of the builtins. */
  function OperatorAsNumber(b: Builtin): real {
    if b.Plus? then 6.0 else 7.0
  }

  function Negate(o: Outcome): Outcome {
    match o
    case Val(Op(True)) => Val(Op(False))
    case Val(Op(False)) => Val(Op(True))
    case Val(_) => Stuck
    case _ => o
  }

  function MixedEval(t: ComboTree, inputs: seq<Vertex>, m: Math): Outcome
    decreases t, 0
  {
    match t.op
    case Arg(i, negated) =>
      if i >= |inputs| then Stuck
      else if negated then Negate(Val(inputs[i]))
      else Val(inputs[i])
    case Num(_) => Val(t.op)
    case Op(b) =>
      match b
      case True => Val(t.op)
      case False => Val(t.op)
      case And => if t.kids == [] then Val(t.op) else Until(False, True, t.kids, inputs, m)
      case Or => if t.kids == [] then Val(t.op) else Until(True, False, t.kids, inputs, m)
      case Not => if t.kids == [] then Stuck else Negate(BooleanEval(t.kids[0], inputs, m))
      case Plus => if t.kids == [] then Val(Num(OperatorAsNumber(b))) else Sum(0.0, t.kids, inputs, m)
      case Times => if t.kids == [] then Val(Num(OperatorAsNumber(b))) else Product(1.0, t.kids, inputs, m)
      case Div => if t.kids == [] then Stuck else Quotient(t.kids, inputs, m)
      case Exp => if t.kids == [] then Stuck else Call(m.exp, ContinEval(t.kids[0], inputs, m))
      case Log => if t.kids == [] then Stuck else Call(m.log, ContinEval(t.kids[0], inputs, m))
      case Sin => if t.kids == [] then Stuck else Call(x => Finite(m.sin(x)), ContinEval(t.kids[0], inputs, m))
      case GreaterThanZero => if t.kids == [] then Stuck else Positive(MixedEval(t.kids[0], inputs, m))
      case Impulse => if t.kids == [] then Stuck else AsImpulse(MixedEval(t.kids[0], inputs, m))
      case ContinIf => Cond(t.kids, inputs, m)
      case _ => Stuck
  }

  function BooleanEval(t: ComboTree, inputs: seq<Vertex>, m: Math): Outcome
    decreases t, 1
  {
    match MixedEval(t, inputs, m)
    case Val(Num(_)) => Stuck
    case Val(Arg(_, _)) => Stuck
    case o => o
  }

  function ContinEval(t: ComboTree, inputs: seq<Vertex>, m: Math): Outcome
    decreases t, 1
  {
    match MixedEval(t, inputs, m)
    case Val(Op(_)) => Stuck
    case Val(Arg(_, _)) => Stuck
    case o => o
  }

  /** Evaluates operands until one yields `stop`; `otherwise` if none does. */
  function Until(stop: Builtin, otherwise: Builtin, ts: seq<ComboTree>, inputs: seq<Vertex>, m: Math): Outcome
    decreases ts
  {
    if ts == [] then Val(Op(otherwise))
    else
      match BooleanEval(ts[0], inputs, m)
      case Val(v) => if v == Op(stop) then Val(v) else Until(stop, otherwise, ts[1..], inputs, m)
      case o => o
  }

  function Sum(acc: real, ts: seq<ComboTree>, inputs: seq<Vertex>, m: Math): Outcome
    decreases ts
  {
    if ts == [] then Val(Num(acc))
    else
      match ContinEval(ts[0], inputs, m)
      case Val(Num(x)) => Sum(acc + x, ts[1..], inputs, m)
      case o => o
  }

  function Mul(x: real, y: real): real { x * y }

  /** Stops at the first zero. */
  function Product(acc: real, ts: seq<ComboTree>, inputs: seq<Vertex>, m: Math): Outcome
    decreases ts
  {
    if ts == [] then Val(Num(acc))
    else
      match ContinEval(ts[0], inputs, m)
      case Val(Num(x)) => if Mul(acc, x) == 0.0 then Val(Num(0.0)) else Product(Mul(acc, x), ts[1..], inputs, m)
      case o => o
  }

  function Quotient(ts: seq<ComboTree>, inputs: seq<Vertex>, m: Math): Outcome
    requires ts != []
    decreases ts
  {
    match ContinEval(ts[0], inputs, m)
    case Val(Num(x)) =>
      if x == 0.0 then Val(Num(x))
      else if |ts| < 2 then Stuck
      else
        (match ContinEval(ts[1], inputs, m)
         case Val(Num(y)) => if y == 0.0 then Overflow(x > 0.0) else Val(Num(x / y))
         case o => o)
    case o => o
  }

  function Call(f: real -> MathResult, o: Outcome): Outcome {
    match o
    case Val(Num(x)) => (match f(x) case Finite(y) => Val(Num(y)) case NotFinite(p) => Overflow(p))
    case _ => o
  }

  /** 0<, which catches an overflow and looks at its sign. */
  function Positive(o: Outcome): Outcome {
    match o
    case Val(Num(x)) => Val(Truth(x > 0.0))
    case Val(_) => Stuck
    case Overflow(p) => Val(Truth(p))
    case Stuck => Stuck
  }

  function AsImpulse(o: Outcome): Outcome {
    match o
    case Val(v) => Val(Num(if v == Op(True) then 1.0 else 0.0))
    case _ => o
  }

  /** Alternating conditions and consequents with a last, universal alternative. */
  function Cond(ts: seq<ComboTree>, inputs: seq<Vertex>, m: Math): Outcome
    decreases ts
  {
    if ts == [] then Stuck
    else
      match MixedEval(ts[0], inputs, m)
      case Val(v) =>
        if |ts| == 1 then Val(v)
        else if v == Op(True) then MixedEval(ts[1], inputs, m)
        else Cond(ts[2..], inputs, m)
      case o => o
  }
}
