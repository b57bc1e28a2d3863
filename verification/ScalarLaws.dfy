/** What the operators of the scalar interpreter compute, as laws between programs. */
module ScalarLaws {
  import opened Trees
  import opened Combo
  import opened ScalarInterpreter

  function Call1(b: Builtin, x: ComboTree): ComboTree { Node(Op(b), [x]) }

  function Call2(b: Builtin, x: ComboTree, y: ComboTree): ComboTree { Node(Op(b), [x, y]) }

  function If(c: ComboTree, x: ComboTree, y: ComboTree): ComboTree { Node(Op(ContinIf), [c, x, y]) }

  function Minus(x: ComboTree): ComboTree { Call2(Times, Node(Num(-1.0), []), x) }

  /** The program evaluates to the number. */
  ghost predicate IsNum(t: ComboTree, r: real, inputs: seq<Vertex>, m: Math) { MixedEval(t, inputs, m) == Val(Num(r)) }

  ghost predicate IsTruth(t: ComboTree, b: bool, inputs: seq<Vertex>, m: Math) { MixedEval(t, inputs, m) == Val(Truth(b)) }

  // ---------------------------------------------------------------- sums and products of two

  lemma {:induction false} PlusOfTwo(x: ComboTree, y: ComboTree, a: real, d: real, inputs: seq<Vertex>, m: Math)
    requires IsNum(x, a, inputs, m) && IsNum(y, d, inputs, m)
    ensures IsNum(Call2(Plus, x, y), a + d, inputs, m)
  {
    var ts := [x, y];
    assert ts[1..] == [y] && [y][1..] == [];
    assert Sum(0.0, ts, inputs, m) == Sum(0.0 + a, [y], inputs, m) == Sum(0.0 + a + d, [], inputs, m);
  }

  lemma {:induction false} TimesOfTwo(x: ComboTree, y: ComboTree, a: real, d: real, inputs: seq<Vertex>, m: Math)
    requires IsNum(x, a, inputs, m) && IsNum(y, d, inputs, m)
    ensures IsNum(Call2(Times, x, y), a * d, inputs, m)
  {
    var ts := [x, y];
    assert ts[1..] == [y] && [y][1..] == [];
    assert Mul(1.0, a) == a && Mul(a, d) == a * d;
    if a == 0.0 {
      assert Product(1.0, ts, inputs, m) == Val(Num(0.0));
    } else {
      assert Product(1.0, ts, inputs, m) == Product(a, [y], inputs, m);
      assert Product(Mul(a, d), [], inputs, m) == Val(Num(Mul(a, d)));
      assert Product(a, [y], inputs, m) == if Mul(a, d) == 0.0 then Val(Num(0.0)) else Product(Mul(a, d), [], inputs, m);
    }
  }

  /** Without operands plus and times are the numbers of the operators; times comes next to
      plus. */
  lemma {:induction false} BareOperators(inputs: seq<Vertex>, m: Math)
    ensures var plus, times := Node(Op(Plus), []), Node(Op(Times), []);
            IsNum(plus, 6.0, inputs, m)
            && MixedEval(times, inputs, m) == MixedEval(Call2(Plus, plus, Node(Num(1.0), [])), inputs, m)
  {
    var plus := Node(Op(Plus), []);
    assert IsNum(plus, 6.0, inputs, m) && IsNum(Node(Num(1.0), []), 1.0, inputs, m);
    PlusOfTwo(plus, Node(Num(1.0), []), 6.0, 1.0, inputs, m);
  }

  // ---------------------------------------------------------------- choice

  /** Where the condition has a truth value only the chosen alternative is evaluated,
      whatever the other one is. */
  lemma {:induction false} IfChooses(c: ComboTree, x: ComboTree, y: ComboTree, b: bool, inputs: seq<Vertex>, m: Math)
    requires IsTruth(c, b, inputs, m)
    ensures MixedEval(If(c, x, y), inputs, m) == MixedEval(if b then x else y, inputs, m)
  {
    var ts := [c, x, y];
    assert ts[2..] == [y];
    assert MixedEval(If(c, x, y), inputs, m) == Cond(ts, inputs, m);
    if !b { assert Cond([y], inputs, m) == MixedEval(y, inputs, m); }
  }

  /** contin_if(c x y) comes to +(*(impulse(c) x) *(impulse(not(c)) y)). */
  lemma {:induction false} IfIsBlend(c: ComboTree, x: ComboTree, y: ComboTree, b: bool, a: real, d: real, inputs: seq<Vertex>, m: Math)
    requires IsTruth(c, b, inputs, m) && IsNum(x, a, inputs, m) && IsNum(y, d, inputs, m)
    ensures var yes, no := Call2(Times, Call1(Impulse, c), x), Call2(Times, Call1(Impulse, Call1(Not, c)), y);
            MixedEval(If(c, x, y), inputs, m) == MixedEval(Call2(Plus, yes, no), inputs, m)
  {
    var p, q := if b then 1.0 else 0.0, if b then 0.0 else 1.0;
    IfChooses(c, x, y, b, inputs, m);
    assert IsTruth(Call1(Not, c), !b, inputs, m);
    assert IsNum(Call1(Impulse, c), p, inputs, m) && IsNum(Call1(Impulse, Call1(Not, c)), q, inputs, m);
    TimesOfTwo(Call1(Impulse, c), x, p, a, inputs, m);
    TimesOfTwo(Call1(Impulse, Call1(Not, c)), y, q, d, inputs, m);
    PlusOfTwo(Call2(Times, Call1(Impulse, c), x), Call2(Times, Call1(Impulse, Call1(Not, c)), y), p * a, q * d, inputs, m);
  }

  /** contin_if(not(c) x y) is contin_if(c y x). */
  lemma {:induction false} IfNot(c: ComboTree, x: ComboTree, y: ComboTree, b: bool, inputs: seq<Vertex>, m: Math)
    requires IsTruth(c, b, inputs, m)
    ensures MixedEval(If(Call1(Not, c), x, y), inputs, m) == MixedEval(If(c, y, x), inputs, m)
  {
    assert IsTruth(Call1(Not, c), !b, inputs, m);
    IfChooses(Call1(Not, c), x, y, !b, inputs, m);
    IfChooses(c, y, x, b, inputs, m);
  }

  /** A condition without a value decides the outcome. */
  lemma {:induction false} IfFails(c: ComboTree, x: ComboTree, y: ComboTree, inputs: seq<Vertex>, m: Math)
    requires !MixedEval(c, inputs, m).Val?
    ensures MixedEval(If(c, x, y), inputs, m) == MixedEval(c, inputs, m)
  {
    assert MixedEval(If(c, x, y), inputs, m) == Cond([c, x, y], inputs, m);
  }

  // ---------------------------------------------------------------- signs

  /** 0< tells positive numbers from negative ones, and zero from both. */
  lemma {:induction false} OneSign(x: ComboTree, a: real, inputs: seq<Vertex>, m: Math)
    requires IsNum(x, a, inputs, m)
    ensures var up, down := Call1(Impulse, Call1(GreaterThanZero, x)), Call1(Impulse, Call1(GreaterThanZero, Minus(x)));
            && IsNum(Call2(Plus, up, down), if a == 0.0 then 0.0 else 1.0, inputs, m)
            && (a > 0.0 ==> IsNum(up, 1.0, inputs, m))
  {
    var up, down := Call1(Impulse, Call1(GreaterThanZero, x)), Call1(Impulse, Call1(GreaterThanZero, Minus(x)));
    assert IsNum(Node(Num(-1.0), []), -1.0, inputs, m);
    TimesOfTwo(Node(Num(-1.0), []), x, -1.0, a, inputs, m);
    assert IsTruth(Call1(GreaterThanZero, x), a > 0.0, inputs, m) && IsTruth(Call1(GreaterThanZero, Minus(x)), -1.0 * a > 0.0, inputs, m);
    assert IsNum(up, if a > 0.0 then 1.0 else 0.0, inputs, m) && IsNum(down, if -1.0 * a > 0.0 then 1.0 else 0.0, inputs, m);
    PlusOfTwo(up, down, if a > 0.0 then 1.0 else 0.0, if -1.0 * a > 0.0 then 1.0 else 0.0, inputs, m);
  }

  /** contin_if(0<(x) x *(-1 x)) is the absolute value of x. */
  lemma {:induction false} AbsoluteValue(x: ComboTree, a: real, inputs: seq<Vertex>, m: Math)
    requires IsNum(x, a, inputs, m)
    ensures IsNum(If(Call1(GreaterThanZero, x), x, Minus(x)), if a < 0.0 then -a else a, inputs, m)
  {
    assert IsNum(Node(Num(-1.0), []), -1.0, inputs, m);
    TimesOfTwo(Node(Num(-1.0), []), x, -1.0, a, inputs, m);
    assert IsTruth(Call1(GreaterThanZero, x), a > 0.0, inputs, m);
    IfChooses(Call1(GreaterThanZero, x), x, Minus(x), a > 0.0, inputs, m);
  }

  // ---------------------------------------------------------------- division

  lemma {:induction false} QuotientOfTwo(x: ComboTree, y: ComboTree, a: real, d: real, inputs: seq<Vertex>, m: Math)
    requires IsNum(x, a, inputs, m) && IsNum(y, d, inputs, m)
    ensures MixedEval(Call2(Div, x, y), inputs, m) ==
            if a == 0.0 then Val(Num(0.0)) else if d == 0.0 then Overflow(a > 0.0) else Val(Num(a / d))
  {
    var ts := [x, y];
    assert MixedEval(Call2(Div, x, y), inputs, m) == Quotient(ts, inputs, m);
    assert ContinEval(ts[0], inputs, m) == Val(Num(a)) && ContinEval(ts[1], inputs, m) == Val(Num(d));
  }

  /** Division is undone by multiplication. */
  lemma {:induction false} DivisionUndone(x: ComboTree, y: ComboTree, a: real, d: real, inputs: seq<Vertex>, m: Math)
    requires IsNum(x, a, inputs, m) && IsNum(y, d, inputs, m) && d != 0.0
    ensures IsNum(Call2(Times, Call2(Div, x, y), y), a, inputs, m)
  {
    var q := a / d;
    QuotientBack(a, d, q);
    QuotientOfTwo(x, y, a, d, inputs, m);
    assert IsNum(Call2(Div, x, y), q, inputs, m);
    TimesOfTwo(Call2(Div, x, y), y, q, d, inputs, m);
  }

  lemma {:induction false} QuotientBack(a: real, d: real, q: real)
    requires d != 0.0 && q == a / d
    ensures q * d == a && (a == 0.0 ==> q == 0.0)
  {
  }

  /** What is divided by zero overflows with its sign, which 0< sees. */
  lemma {:induction false} DivisionByZero(x: ComboTree, y: ComboTree, a: real, inputs: seq<Vertex>, m: Math)
    requires IsNum(x, a, inputs, m) && IsNum(y, 0.0, inputs, m) && a != 0.0
    ensures MixedEval(Call2(Div, x, y), inputs, m).Overflow?
    ensures MixedEval(Call1(GreaterThanZero, Call2(Div, x, y)), inputs, m) == MixedEval(Call1(GreaterThanZero, x), inputs, m)
  {
    QuotientOfTwo(x, y, a, 0.0, inputs, m);
  }

  // ---------------------------------------------------------------- library functions

  predicate IsLibrary(b: Builtin) { b.Exp? || b.Log? || b.Sin? }

  /** The library function of an operator. */
  function LibraryOf(b: Builtin, m: Math): real -> MathResult
    requires IsLibrary(b)
  {
    if b.Exp? then m.exp else if b.Log? then m.log else x => Finite(m.sin(x))
  }

  function FromLibrary(r: MathResult): Outcome {
    match r
    case Finite(y) => Val(Num(y))
    case NotFinite(p) => Overflow(p)
  }

  /** exp, log and sin of a number are what their own library function gives for it. */
  lemma {:induction false} LibraryValue(b: Builtin, x: ComboTree, a: real, inputs: seq<Vertex>, m: Math)
    requires IsLibrary(b) && IsNum(x, a, inputs, m)
    ensures MixedEval(Call1(b, x), inputs, m) == FromLibrary(LibraryOf(b, m)(a))
  {
  }

  /** ... and on the other library functions they do not depend. */
  lemma {:induction false} LibraryAlone(b: Builtin, x: ComboTree, a: real, inputs: seq<Vertex>, m: Math, m': Math)
    requires IsLibrary(b) && IsNum(x, a, inputs, m) && IsNum(x, a, inputs, m') && LibraryOf(b, m)(a) == LibraryOf(b, m')(a)
    ensures MixedEval(Call1(b, x), inputs, m) == MixedEval(Call1(b, x), inputs, m')
  {
    LibraryValue(b, x, a, inputs, m);
    LibraryValue(b, x, a, inputs, m');
  }

  /** exp(log(x)) is x where the library functions undo each other. */
  lemma {:induction false} LogUndone(x: ComboTree, a: real, l: real, inputs: seq<Vertex>, m: Math)
    requires IsNum(x, a, inputs, m) && m.log(a) == Finite(l) && m.exp(l) == Finite(a)
    ensures IsNum(Call1(Exp, Call1(Log, x)), a, inputs, m)
  {
    LibraryValue(Log, x, a, inputs, m);
    LibraryValue(Exp, Call1(Log, x), l, inputs, m);
  }

  // ---------------------------------------------------------------- any number of operands

  function Nots(ts: seq<ComboTree>): seq<ComboTree> {
    if ts == [] then [] else [Call1(Not, ts[0])] + Nots(ts[1..])
  }

  /** A truth value, or none at all. */
  ghost predicate Decides(t: ComboTree, inputs: seq<Vertex>, m: Math) {
    var o := MixedEval(t, inputs, m); o.Val? ==> IsBoolean(o.v)
  }

  lemma {:induction false} UntilNots(ts: seq<ComboTree>, inputs: seq<Vertex>, m: Math)
    requires forall i | 0 <= i < |ts| :: Decides(ts[i], inputs, m)
    ensures Negate(Until(False, True, ts, inputs, m)) == Until(True, False, Nots(ts), inputs, m)
    decreases |ts|
  {
    if ts != [] {
      var us := Nots(ts);
      assert us[0] == Call1(Not, ts[0]) && us[1..] == Nots(ts[1..]);
      assert Decides(ts[0], inputs, m);
      assert MixedEval(us[0], inputs, m) == Negate(BooleanEval(ts[0], inputs, m));
      UntilNots(ts[1..], inputs, m);
    }
  }

  /** not(and(..)) is or(not(..)..), failures and operands that are not evaluated
      included. */
  lemma {:induction false} NotAndIsOrNots(ts: seq<ComboTree>, inputs: seq<Vertex>, m: Math)
    requires ts != [] && forall i | 0 <= i < |ts| :: Decides(ts[i], inputs, m)
    ensures MixedEval(Call1(Not, Node(Op(And), ts)), inputs, m) == MixedEval(Node(Op(Or), Nots(ts)), inputs, m)
  {
    UntilNots(ts, inputs, m);
    UntilDecides(False, True, ts, inputs, m);
    var all := Node(Op(And), ts);
    assert BooleanEval(all, inputs, m) == MixedEval(all, inputs, m) == Until(False, True, ts, inputs, m);
    assert Nots(ts) != [];
  }

  lemma {:induction false} UntilDecides(stop: Builtin, otherwise: Builtin, ts: seq<ComboTree>, inputs: seq<Vertex>, m: Math)
    requires IsBoolean(Op(stop)) && IsBoolean(Op(otherwise))
    ensures var o := Until(stop, otherwise, ts, inputs, m); o.Val? ==> IsBoolean(o.v)
    decreases |ts|
  {
    if ts != [] {
      UntilDecides(stop, otherwise, ts[1..], inputs, m);
      var first := BooleanEval(ts[0], inputs, m);
      assert Until(stop, otherwise, ts, inputs, m) ==
             if !first.Val? then first else if first.v == Op(stop) then first else Until(stop, otherwise, ts[1..], inputs, m);
    }
  }

  /** Operands behind the first false one do not matter to and. */
  lemma {:induction false} AndStops(ts: seq<ComboTree>, us: seq<ComboTree>, inputs: seq<Vertex>, m: Math)
    requires ts != [] && MixedEval(Node(Op(And), ts), inputs, m) == Val(Op(False))
    ensures MixedEval(Node(Op(And), ts + us), inputs, m) == Val(Op(False))
  {
    UntilStops(ts, us, inputs, m);
  }

  lemma {:induction false} UntilStops(ts: seq<ComboTree>, us: seq<ComboTree>, inputs: seq<Vertex>, m: Math)
    requires Until(False, True, ts, inputs, m) == Val(Op(False))
    ensures Until(False, True, ts + us, inputs, m) == Val(Op(False))
    decreases |ts|
  {
    if ts != [] {
      assert (ts + us)[0] == ts[0] && (ts + us)[1..] == ts[1..] + us;
      match BooleanEval(ts[0], inputs, m)
      case Val(v) => if v != Op(False) { UntilStops(ts[1..], us, inputs, m); }
      case _ =>
    }
  }
}
