/** The columns of a translated program agree, row by row, with the scalar interpreter. */
module ColumnAgreement {
  import opened Trees
  import opened TypeTrees
  import opened TypeReduce
  import opened Combo
  import opened ScalarInterpreter
  import opened TypeInference
  import opened TypeSoundness
  import opened Atoms
  import opened Labels
  import opened ColumnInterpreter
  import opened ComboToAtomese

  // ---------------------------------------------------------------- setting

  /** The value of a column on a row, as the scalar interpreter writes it. */
  function Cell(c: Column, r: nat): Vertex
    requires r < Length(c)
  {
    match c
    case Links(bs) => Truth(bs[r])
    case Floats(xs) => Num(xs[r])
  }

  /** Each variable named after argument i holds that argument's value on every row. */
  ghost predicate Tabulates(table: Table, rows: seq<seq<Vertex>>, labels: seq<string>) {
    forall v, i: nat {:trigger v in table, ArgLabel(i, labels)} |
      v in table && Labelled(i, labels) && IsVariable(v.kind) && v.name == "$" + ArgLabel(i, labels) ::
      && Length(table[v]) == |rows|
      && forall r | 0 <= r < |rows| :: i < |rows[r]| && Cell(table[v], r) == rows[r][i]
  }

  /** All variables below the atom are in the table. */
  ghost predicate Covered(a: Atom, table: Table)
    requires Grounded(a)
    decreases a.height
  {
    (IsVariable(a.kind) ==> a in table) && forall i | 0 <= i < |a.outgoing| :: Covered(a.outgoing[i], table)
  }

  /** A table with at least one row, all of whose rows have the given types. */
  ghost predicate TypedRows(rows: seq<seq<Vertex>>, args: seq<TypeTree>) {
    rows != [] && LeafTypes(args) && forall r | 0 <= r < |rows| :: InputsMatch(rows[r], args)
  }

  /** Every operator in the program can be translated and has operands. */
  predicate Program(t: ComboTree, args: seq<TypeTree>, labels: seq<string>) {
    Saturated(t) && NegatesBooleans(t, args) && Supported(t, labels)
  }

  /** An argument is taken for a predicate where its type is boolean, for a schema where it is contin. */
  predicate Suits(p: Procedure, ty: TypeTree) {
    (ty == Leaf(Boolean) && p.Predicate?) || (ty == Leaf(Contin) && p.Schema?)
  }

  /** The atom has the program's type and, on row r, its value. */
  ghost predicate Agrees(a: Atom, table: Table, n: nat, r: nat, ty: TypeTree, o: Outcome)
    requires Grounded(a) && r < n
  {
    if ty == Leaf(Boolean) then BoolAtom(a, table, n) && o == Val(Truth(BoolAt(a, table, n, r)))
    else FloatAtom(a, table, n) && o == Val(Num(FloatAt(a, table, n, r)))
  }

  // ---------------------------------------------------------------- operators with any number of operands

  ghost predicate BoolOperands(a: Atom, ts: seq<ComboTree>, table: Table, n: nat, r: nat, row: seq<Vertex>, m: Math) {
    && r < n && Grounded(a) && |a.outgoing| == |ts| && BoolAtoms(a.outgoing, table, n)
    && forall i | 0 <= i < |ts| :: MixedEval(ts[i], row, m) == Val(Truth(BoolAt(a.outgoing[i], table, n, r)))
  }

  ghost predicate FloatOperands(a: Atom, ts: seq<ComboTree>, table: Table, n: nat, r: nat, row: seq<Vertex>, m: Math) {
    && r < n && Grounded(a) && |a.outgoing| == |ts| && FloatAtoms(a.outgoing, table, n)
    && forall i | 0 <= i < |ts| :: MixedEval(ts[i], row, m) == Val(Num(FloatAt(a.outgoing[i], table, n, r)))
  }

  /** After k operands without a false one the scalar conjunction is where the column fold is. */
  lemma {:induction false} AndAgrees(a: Atom, ts: seq<ComboTree>, k: nat, table: Table, n: nat, r: nat, row: seq<Vertex>, m: Math)
    requires BoolOperands(a, ts, table, n, r, row, m) && k <= |ts|
    ensures Until(False, True, ts, row, m) ==
            if AllAt(a, k, table, n, r) then Until(False, True, ts[k..], row, m) else Val(Op(False))
  {
    if k == 0 {
      assert ts[0..] == ts;
    } else {
      AndAgrees(a, ts, k - 1, table, n, r, row, m);
      assert ts[k - 1..][1..] == ts[k..];
      assert ts[k - 1..][0] == ts[k - 1];
    }
  }

  lemma {:induction false} OrAgrees(a: Atom, ts: seq<ComboTree>, k: nat, table: Table, n: nat, r: nat, row: seq<Vertex>, m: Math)
    requires BoolOperands(a, ts, table, n, r, row, m) && k <= |ts|
    ensures Until(True, False, ts, row, m) ==
            if AnyAt(a, k, table, n, r) then Val(Op(True)) else Until(True, False, ts[k..], row, m)
  {
    if k == 0 {
      assert ts[0..] == ts;
    } else {
      OrAgrees(a, ts, k - 1, table, n, r, row, m);
      assert ts[k - 1..][1..] == ts[k..];
      assert ts[k - 1..][0] == ts[k - 1];
    }
  }

  lemma {:induction false} PlusAgrees(a: Atom, ts: seq<ComboTree>, k: nat, table: Table, n: nat, r: nat, row: seq<Vertex>, m: Math)
    requires FloatOperands(a, ts, table, n, r, row, m) && k <= |ts|
    ensures Sum(0.0, ts, row, m) == Sum(SumAt(a, k, table, n, r), ts[k..], row, m)
  {
    if k == 0 {
      assert ts[0..] == ts;
    } else {
      PlusAgrees(a, ts, k - 1, table, n, r, row, m);
      assert ts[k - 1..][1..] == ts[k..];
      assert ts[k - 1..][0] == ts[k - 1];
    }
  }

  lemma {:induction false} ZeroStays(x: real, y: real)
    ensures x == 0.0 ==> Mul(x, y) == 0.0
    ensures Mul(x, y) == x * y
  {
  }

  /** The scalar product stops at a zero, where the column product stays zero. */
  lemma {:induction false} TimesAgrees(a: Atom, ts: seq<ComboTree>, k: nat, table: Table, n: nat, r: nat, row: seq<Vertex>, m: Math)
    requires FloatOperands(a, ts, table, n, r, row, m) && k <= |ts|
    ensures Product(1.0, ts, row, m) ==
            if ProductAt(a, k, table, n, r) == 0.0 then Val(Num(0.0)) else Product(ProductAt(a, k, table, n, r), ts[k..], row, m)
  {
    if k == 0 {
      assert ts[0..] == ts;
    } else {
      TimesAgrees(a, ts, k - 1, table, n, r, row, m);
      assert ts[k - 1..][1..] == ts[k..];
      assert ts[k - 1..][0] == ts[k - 1];
      var p, x := ProductAt(a, k - 1, table, n, r), FloatAt(a.outgoing[k - 1], table, n, r);
      ZeroStays(p, x);
      assert ProductAt(a, k, table, n, r) == Mul(p, x);
    }
  }

  // ---------------------------------------------------------------- whole programs

  ghost predicate Translation(a: Atom, t: ComboTree, p: Procedure, args: seq<TypeTree>, labels: seq<string>, table: Table) {
    && Program(t, args, labels) && !p.UnknownProcedure?
    && Grounded(a) && Represents(a, t, p, labels) && Covered(a, table)
  }

  ghost predicate Tabulated(table: Table, rows: seq<seq<Vertex>>, args: seq<TypeTree>, labels: seq<string>) {
    TypedRows(rows, args) && Tabulates(table, rows, labels)
  }

  lemma {:induction false} ArgumentAgrees(a: Atom, t: ComboTree, p: Procedure, args: seq<TypeTree>, labels: seq<string>,
                       table: Table, rows: seq<seq<Vertex>>, r: nat, m: Math)
    requires Tabulated(table, rows, args, labels) && Translation(a, t, p, args, labels, table) && r < |rows|
    requires t.op.Arg? && t.kids == [] && Suits(p, TypeOf(t, args))
    ensures Agrees(a, table, |rows|, r, TypeOf(t, args), MixedEval(t, rows[r], m))
  {
    var i := t.op.idx;
    if t.op.negated { assert p.Predicate? && Covered(a.outgoing[0], table); }
    var v := if t.op.negated then a.outgoing[0] else a;
    assert v in table && v.name == "$" + ArgLabel(i, labels);
    assert Length(table[v]) == |rows| && Cell(table[v], r) == rows[r][i];
    assert InputsMatch(rows[r], args) && HasType(rows[r][i], args[i]);
  }

  /** The type an operator expects of each operand, in the translated fragment. */
  function OperandType(b: Builtin): TypeTree
    requires Translatable(b)
  {
    if OperandProcedure(b).Schema? then Leaf(Contin) else Leaf(Boolean)
  }

  lemma {:induction false} OperandTypes(t: ComboTree, args: seq<TypeTree>, labels: seq<string>)
    requires Program(t, args, labels) && LeafTypes(args) && t.kids != []
    requires TypeOf(t, args) in {Leaf(Boolean), Leaf(Contin)}
    ensures t.op.Op? && Translatable(t.op.b) && Arity(t.op) != 0
    ensures TypeOf(t, args) == Leaf(TypeOfBuiltin(t.op.b).result)
    ensures forall i | 0 <= i < |t.kids| ::
              Program(t.kids[i], args, labels) && TypeOf(t.kids[i], args) == OperandType(t.op.b)
    ensures TypeOfBuiltin(t.op.b).Fixed? ==> |t.kids| == 1
  {
    var ts := TypesOf(t.kids, args);
    OperandsInherit(t.op.b, ts);
    forall i | 0 <= i < |t.kids| ensures TypeOf(t.kids[i], args) == OperandType(t.op.b) {
      assert ts[i] == TypeOf(t.kids[i], args);
    }
  }

  lemma {:induction false} OperandsInherit(b: Builtin, ts: seq<TypeTree>)
    requires Translatable(b) && LeafTypes(ts) && ShapedAll(ts) && ts != []
    requires ResultOf(b, ts) in {Leaf(Boolean), Leaf(Contin)}
    ensures !TypeOfBuiltin(b).Constant? && ResultOf(b, ts) == Leaf(TypeOfBuiltin(b).result)
    ensures forall i | 0 <= i < |ts| :: ts[i] == OperandType(b)
    ensures TypeOfBuiltin(b).Fixed? ==> |ts| == 1
  {
    TableIsElementary(b);
    if TypeOfBuiltin(b).Fixed? {
      var ps := Leaves(TypeOfBuiltin(b).params);
      EachInherits(ts, ps);
      assert |ps| == 1 && Inherit(ts[0], ps[0]);
    } else if TypeOfBuiltin(b).Variadic? {
      AllInheritSame(ts, Leaf(TypeOfBuiltin(b).param));
    }
  }

  /** Row r of the column of a translated program is the scalar value of the program on row r. */
  lemma {:induction false} TranslationAgrees(a: Atom, t: ComboTree, p: Procedure, args: seq<TypeTree>, labels: seq<string>,
                                             table: Table, rows: seq<seq<Vertex>>, r: nat, m: Math)
    requires Tabulated(table, rows, args, labels) && Translation(a, t, p, args, labels, table) && r < |rows|
    requires TypeOf(t, args) in {Leaf(Boolean), Leaf(Contin)}
    requires t.op.Arg? ==> Suits(p, TypeOf(t, args))
    ensures Agrees(a, table, |rows|, r, TypeOf(t, args), MixedEval(t, rows[r], m))
    decreases t
  {
    if t.op.Arg? {
      if t.kids == [] { ArgumentAgrees(a, t, p, args, labels, table, rows, r, m); }
    } else if t.kids != [] {
      OperandTypes(t, args, labels);
      var b := t.op.b;
      forall i | 0 <= i < |t.kids|
        ensures Grounded(a.outgoing[i]) && Agrees(a.outgoing[i], table, |rows|, r, OperandType(b), MixedEval(t.kids[i], rows[r], m))
      {
        TranslationAgrees(a.outgoing[i], t.kids[i], OperandProcedure(b), args, labels, table, rows, r, m);
      }
      OperatorAgrees(a, t, labels, table, |rows|, r, rows[r], m);
    }
  }

  lemma {:induction false} OperatorAgrees(a: Atom, t: ComboTree, labels: seq<string>, table: Table, n: nat, r: nat, row: seq<Vertex>, m: Math)
    requires Supported(t, labels) && Grounded(a) && Represents(a, t, Predicate, labels) && r < n
    requires t.op.Op? && t.kids != [] && Arity(t.op) != 0 && (TypeOfBuiltin(t.op.b).Fixed? ==> |t.kids| == 1)
    requires forall i | 0 <= i < |t.kids| ::
               Agrees(a.outgoing[i], table, n, r, OperandType(t.op.b), MixedEval(t.kids[i], row, m))
    ensures Agrees(a, table, n, r, Leaf(TypeOfBuiltin(t.op.b).result), MixedEval(t, row, m))
  {
    assert Agrees(a.outgoing[0], table, n, r, OperandType(t.op.b), MixedEval(t.kids[0], row, m));
    var k := |t.kids|;
    assert t.kids[k..] == [];
    match t.op.b {
      case And =>
        assert BoolOperands(a, t.kids, table, n, r, row, m);
        AndAgrees(a, t.kids, k, table, n, r, row, m);
      case Or =>
        assert BoolOperands(a, t.kids, table, n, r, row, m);
        OrAgrees(a, t.kids, k, table, n, r, row, m);
      case Plus =>
        assert FloatOperands(a, t.kids, table, n, r, row, m);
        PlusAgrees(a, t.kids, k, table, n, r, row, m);
      case Times =>
        assert FloatOperands(a, t.kids, table, n, r, row, m);
        TimesAgrees(a, t.kids, k, table, n, r, row, m);
      case _ =>
    }
  }

  /** The program is one that inference gives the wanted type on this table. */
  ghost predicate Runnable(t: ComboTree, contin: bool, labels: seq<string>, rows: seq<seq<Vertex>>) {
    && Saturated(t) && Supported(t, labels)
    && var sig := InferType(t);
    && (sig.op.Lambda? ==> sig.kids != [])
    && SignatureOutput(sig) == (if contin then Leaf(Contin) else Leaf(Boolean))
    && NegatesBooleans(t, SignatureInputs(sig))
    && rows != [] && forall r | 0 <= r < |rows| :: InputsMatch(rows[r], SignatureInputs(sig))
  }

  /** Compiled columns agree with scalar rows: any column that means the translation
      of a program inferred to be boolean or contin holds, on every row, what the
      scalar interpreter returns for that row. */
  lemma {:induction false} ColumnsAgreeWithRows(c: Column, a: Atom, t: ComboTree, contin: bool, labels: seq<string>,
                             table: Table, rows: seq<seq<Vertex>>, m: Math)
    requires Runnable(t, contin, labels, rows)
    requires Grounded(a) && Represents(a, t, Resolve(UnknownProcedure, contin), labels)
    requires Covered(a, table) && Tabulates(table, rows, labels) && Means(c, a, table, |rows|)
    ensures Length(c) == |rows|
    ensures forall r | 0 <= r < |rows| :: MixedEval(t, rows[r], m) == Val(Cell(c, r))
  {
    SaturatedParts(t);
    var args := SignatureInputs(InferType(t));
    forall r | 0 <= r < |rows| ensures MixedEval(t, rows[r], m) == Val(Cell(c, r)) && Length(c) == |rows| {
      TranslationAgrees(a, t, Resolve(UnknownProcedure, contin), args, labels, table, rows, r, m);
    }
    assert Length(c) == |rows| by {
      TranslationAgrees(a, t, Resolve(UnknownProcedure, contin), args, labels, table, rows, 0, m);
    }
  }
}
