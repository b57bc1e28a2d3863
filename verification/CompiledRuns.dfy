/** Programs compiled into one space and run over one table, one after the other and
    again, on atoms that they share. */
module CompiledRuns {
  import opened Trees
  import opened TypeTrees
  import opened Combo
  import opened ScalarInterpreter
  import opened TypeInference
  import opened TypeSoundness
  import opened Atoms
  import opened Labels
  import opened ColumnInterpreter
  import opened ComboToAtomese
  import opened ColumnAgreement

  // ---------------------------------------------------------------- the table

  /** A table with rows, whose columns have labels and hold values of scalar types. */
  ghost predicate WellFormedTable(rows: seq<seq<Vertex>>, types: seq<TypeTree>, labels: seq<string>) {
    && rows != [] && |labels| == |types| && GoodLabels(labels)
    && (forall i | 0 <= i < |types| :: types[i] in {Leaf(Boolean), Leaf(Contin)})
    && (forall r, i | 0 <= r < |rows| && 0 <= i < |types| :: HasCell(rows, types, i, r))
    && forall r | 0 <= r < |rows| :: |rows[r]| == |types|
  }

  function ColumnKind(ty: TypeTree): Kind { if ty == Leaf(Boolean) then PredicateNode else SchemaNode }

  /** Column i of the table as a value. */
  function ColumnOf(rows: seq<seq<Vertex>>, types: seq<TypeTree>, i: nat): (c: Column)
    requires i < |types| && forall r | 0 <= r < |rows| :: HasCell(rows, types, i, r)
    ensures Length(c) == |rows| && forall r | 0 <= r < |rows| :: HasCell(rows, types, i, r) && Cell(c, r) == rows[r][i]
    ensures if types[i] == Leaf(Boolean) then c.Links? else c.Floats?
  {
    if types[i] == Leaf(Boolean) then
      Links(seq(|rows|, r requires 0 <= r < |rows| && HasCell(rows, types, i, r) => rows[r][i] == Op(True)))
    else
      var xs := seq(|rows|, r requires 0 <= r < |rows| && HasCell(rows, types, i, r) => rows[r][i].r);
      assert forall r | 0 <= r < |rows| :: HasCell(rows, types, i, r) && xs[r] == rows[r][i].r;
      Floats(xs)
  }

  predicate HasCell(rows: seq<seq<Vertex>>, types: seq<TypeTree>, i: nat, r: nat)
    requires i < |types| && r < |rows|
  {
    |rows[r]| == |types| && HasType(rows[r][i], types[i])
  }

  // ---------------------------------------------------------------- arguments and columns

  /** A mentioned variable stands for an argument, of the kind of the argument's type. */
  lemma {:induction false} MentionedIsTyped(t: ComboTree, p: Procedure, args: seq<TypeTree>, labels: seq<string>,
                                            row: seq<Vertex>, kind: Kind, name: string)
      returns (i: nat)
    requires Program(t, args, labels) && LeafTypes(args) && InputsMatch(row, args) && !p.UnknownProcedure?
    requires TypeOf(t, args) in {Leaf(Boolean), Leaf(Contin)}
    requires t.op.Arg? ==> Suits(p, TypeOf(t, args))
    requires Mentions(t, p, labels, kind, name)
    ensures i < |args| && Labelled(i, labels) && name == "$" + ArgLabel(i, labels)
    ensures args[i] in {Leaf(Boolean), Leaf(Contin)} && kind == ColumnKind(args[i])
    decreases t
  {
    if t.op.Arg? {
      i := t.op.idx;
    } else {
      var k :| 0 <= k < |t.kids| && Mentions(t.kids[k], OperandProcedure(t.op.b), labels, kind, name);
      OperandTypes(t, args, labels);
      i := MentionedIsTyped(t.kids[k], OperandProcedure(t.op.b), args, labels, row, kind, name);
    }
  }

  // ---------------------------------------------------------------- a session

  class Session {
    const rows: seq<seq<Vertex>>
    const types: seq<TypeTree>
    const labels: seq<string>
    const key: Key
    const space: AtomSpace
    const interpreter: Interpreter
    ghost var atoms: set<Atom>  // those of the space and of all programs compiled so far
    ghost var table: Table

    /** Everything stored under the key is right, and each column has its variable. */
    ghost predicate Valid()
      reads this, space, interpreter, atoms
    {
      && Steady()
      && space.Valid() && space.Contents() <= atoms
      && forall i | 0 <= i < |types| :: VariableIn(space.atoms, i)
    }

    /** What is stored on the atoms is right, and their variables are those of columns. */
    ghost predicate Steady()
      reads this, interpreter, atoms
    {
      && WellFormedTable(rows, types, labels) && Closed(atoms)
      && interpreter.key == key && interpreter.size == |rows|
      && Memo(atoms, key, table, |rows|) && Tabulates(table, rows, labels)
      && (forall a | a in atoms && IsVariable(a.kind) :: a in table)
      && (forall a | a in table :: exists i :: IsColumn(a, i))
    }

    /** Blank atoms join that bring no variable along. */
    ghost method Join(T: set<Atom>)
      requires Steady() && Closed(T) && forall x | x in T && x !in atoms :: x.values == map[] && !IsVariable(x.kind)
      modifies this`atoms
      ensures Steady() && atoms == old(atoms) + T
    {
      BlankAtomsKeepMemo(atoms, T, key, table, |rows|);
      atoms := atoms + T;
    }

    ghost predicate IsColumn(a: Atom, i: int)
      requires |types| == |labels|
    {
      0 <= i < |types| && IsVariableNamed(a, ColumnKind(types[i]), labels[i])
    }

    ghost predicate VariableIn(list: seq<Atom>, i: nat)
      requires i < |types| == |labels|
    {
      exists a :: a in list && IsVariableNamed(a, ColumnKind(types[i]), labels[i]) && a.number == 0.0
    }

    /** Variable i with the values of its column, and nothing else, stored on it. */
    ghost predicate Holds(a: Atom, i: nat)
      requires WellFormedTable(rows, types, labels) && i < |types|
      reads a
    {
      && IsVariableNamed(a, ColumnKind(types[i]), labels[i]) && a.number == 0.0
      && a.values == map[key := ColumnOf(rows, types, i)]
    }

    /** The variables in the list hold the first n columns, and nothing else is stored. */
    ghost predicate OnlyColumns(list: seq<Atom>, n: nat)
      requires WellFormedTable(rows, types, labels) && n <= |types|
      reads set a | a in list
    {
      forall a | a in list :: if IsVariable(a.kind) then exists i: nat :: i < n && Holds(a, i) else a.values == map[]
    }

    /** The space holds the first n columns and no other value. */
    ghost predicate Populated(n: nat)
      requires WellFormedTable(rows, types, labels) && n <= |types|
      reads space, space.Contents()
    {
      space.Valid() && OnlyColumns(space.atoms, n) && forall i | 0 <= i < n :: VariableIn(space.atoms, i)
    }

    /** Fills a new space with a variable for each column. */
    constructor (rows: seq<seq<Vertex>>, types: seq<TypeTree>, labels: seq<string>, key: Key)
      requires WellFormedTable(rows, types, labels)
      ensures this.rows == rows && this.types == types && this.labels == labels && this.key == key
      ensures Valid() && fresh(space) && fresh(interpreter) && fresh(atoms)
    {
      this.rows, this.types, this.labels, this.key := rows, types, labels, key;
      space := new AtomSpace();
      interpreter := new Interpreter(key, |rows|);
      atoms, table := {}, map[];
      new;
      Populate();
    }

    /** Adds a variable for each column to an empty space. */
    method Populate()
      requires WellFormedTable(rows, types, labels) && space.Valid() && space.atoms == []
      requires interpreter.key == key && interpreter.size == |rows|
      modifies space, this`atoms, this`table
      ensures Valid() && fresh(atoms)
    {
      for i := 0 to |types|
        invariant Populated(i) && fresh(space.Contents())
      {
        AddColumn(i);
      }
      Load();
    }

    ghost method Load()
      requires WellFormedTable(rows, types, labels) && Populated(|types|)
      requires interpreter.key == key && interpreter.size == |rows|
      modifies this`atoms, this`table
      ensures Valid() && atoms == space.Contents()
    {
      atoms := space.Contents();
      table := ColumnsStored();
      LoadedIsValid();
    }

    lemma {:induction false} LoadedIsValid()
      requires Loaded() && interpreter.key == key && interpreter.size == |rows|
      ensures Valid()
    {
      ColumnsAreNamed();
      ColumnsTabulate();
      ColumnsAreMeant();
    }

    method AddColumn(i: nat)
      requires WellFormedTable(rows, types, labels) && i < |types| && Populated(i)
      modifies space
      ensures Populated(i + 1) && fresh(space.Contents() - old(space.Contents()))
    {
      ghost var before := space.atoms;
      var feature := new Atom.Node(ColumnKind(types[i]), "$" + labels[i]);
      assert feature !in before && OnlyColumns(before, i);
      feature.values := feature.values[key := ColumnOf(rows, types, i)];
      assert OnlyColumns(before, i);
      assert Holds(feature, i);
      var r := space.AddAtom(feature, {feature});
      assert OnlyColumns(before, i);
      assert VariableIn(space.atoms, i) by { assert IsVariableNamed(r, ColumnKind(types[i]), labels[i]); }
      forall j | 0 <= j < i ensures VariableIn(space.atoms, j) {
        assert VariableIn(before, j);
      }
      ColumnJoins(before, space.atoms, feature, i);
    }

    lemma {:induction false} ColumnJoins(before: seq<Atom>, after: seq<Atom>, feature: Atom, i: nat)
      requires WellFormedTable(rows, types, labels) && i < |types| && OnlyColumns(before, i) && Holds(feature, i)
      requires forall x | x in after && x !in before :: if IsVariable(x.kind) then x == feature else x.values == map[]
      ensures OnlyColumns(after, i + 1)
    {
      forall a | a in after && IsVariable(a.kind) ensures exists j: nat :: j < i + 1 && Holds(a, j) {
        if a in before {
          var j: nat :| j < i && Holds(a, j);
        } else {
          assert Holds(a, i);
        }
      }
    }

    /** The columns stored on the variables. */
    ghost function ColumnsStored(): Table
      reads this, atoms
    {
      map a | a in atoms && IsVariable(a.kind) && key in a.values :: a.values[key]
    }

    ghost predicate Loaded()
      reads this, space, atoms
    {
      && WellFormedTable(rows, types, labels) && atoms == space.Contents() && Populated(|types|)
      && table == ColumnsStored()
    }

    lemma {:induction false} ColumnsAreNamed()
      requires Loaded()
      ensures forall a | a in table :: exists i :: IsColumn(a, i)
    {
      forall a | a in table ensures exists i :: IsColumn(a, i) {
        var i: nat :| i < |types| && Holds(a, i);
        assert IsColumn(a, i);
      }
    }

    lemma {:induction false} ColumnsTabulate()
      requires Loaded()
      ensures Tabulates(table, rows, labels) && forall a | a in atoms && IsVariable(a.kind) :: a in table
    {
      forall v, i: nat | v in table && Labelled(i, labels) && IsVariable(v.kind) && v.name == "$" + ArgLabel(i, labels)
        ensures Length(table[v]) == |rows| && forall r | 0 <= r < |rows| :: i < |rows[r]| && Cell(table[v], r) == rows[r][i]
      {
        var j: nat :| j < |types| && Holds(v, j);
        assert v.name[1..] == ArgLabel(i, labels) && v.name[1..] == ArgLabel(j, labels);
        ArgLabelInjective(i, j, labels);
      }
    }

    lemma {:induction false} ColumnsAreMeant()
      requires Loaded()
      ensures Memo(atoms, key, table, |rows|)
    {
      forall a | a in atoms && IsVariable(a.kind) ensures key in a.values && Means(a.values[key], a, table, |rows|) {
        var j: nat :| j < |types| && Holds(a, j);
        assert a in table && table[a] == ColumnOf(rows, types, j);
      }
    }

    /** Every variable that the program mentions is the one of a column. */
    ghost predicate MentionsColumns(t: ComboTree, p: Procedure)
      requires Supported(t, labels) && !p.UnknownProcedure? && |types| == |labels|
    {
      forall k, n | Mentions(t, p, labels, k, n) :: exists i :: 0 <= i < |types| && k == ColumnKind(types[i]) && n == "$" + labels[i]
    }

    lemma {:induction false} RunnableMentionsColumns(t: ComboTree, contin: bool)
      requires WellFormedTable(rows, types, labels) && Runnable(t, contin, labels, rows)
      ensures MentionsColumns(t, Resolve(UnknownProcedure, contin))
    {
      SaturatedParts(t);
      var p, args := Resolve(UnknownProcedure, contin), SignatureInputs(InferType(t));
      forall k, n | Mentions(t, p, labels, k, n)
        ensures exists i :: 0 <= i < |types| && k == ColumnKind(types[i]) && n == "$" + labels[i]
      {
        var i := MentionedIsTyped(t, p, args, labels, rows[0], k, n);
        TypedAsColumn(rows[0], args, i);
      }
    }

    lemma {:induction false} TypedAsColumn(row: seq<Vertex>, args: seq<TypeTree>, i: nat)
      requires WellFormedTable(rows, types, labels) && row == rows[0] && InputsMatch(row, args)
      requires i < |args| && args[i] in {Leaf(Boolean), Leaf(Contin)}
      ensures i < |types| && args[i] == types[i]
    {
      assert HasCell(rows, types, i, 0) && HasType(row[i], args[i]);
    }

    lemma {:induction false} NoNewVariable(t: ComboTree, p: Procedure, before: seq<Atom>, after: seq<Atom>)
      requires Supported(t, labels) && !p.UnknownProcedure? && |types| == |labels| && MentionsColumns(t, p)
      requires GrownBy(before, after, (k, n) => Mentions(t, p, labels, k, n))
      requires forall i | 0 <= i < |types| :: VariableIn(before, i)
      ensures forall x | x in after && x !in before :: !IsVariable(x.kind)
      ensures forall i | 0 <= i < |types| :: VariableIn(after, i)
    {
      forall x | x in after && x.number == 0.0 && Mentions(t, p, labels, x.kind, x.name) ensures Known(x, before) {
        var i :| 0 <= i < |types| && x.kind == ColumnKind(types[i]) && x.name == "$" + labels[i];
        assert VariableIn(before, i);
      }
      forall i | 0 <= i < |types| ensures VariableIn(after, i) {
        assert VariableIn(before, i);
      }
    }

    /** Some atom in the list represents the program. */
    ghost predicate Compiled(t: ComboTree, contin: bool, list: seq<Atom>)
      requires Supported(t, labels)
    {
      exists x :: x in list && Grounded(x) && Represents(x, t, Resolve(UnknownProcedure, contin), labels)
    }

    /** There is one atom in the space for a program. */
    lemma {:induction false} OneAtomForProgram(a: Atom, b: Atom, t: ComboTree, contin: bool)
      requires space.Valid() && Supported(t, labels) && a in space.atoms && b in space.atoms
      requires Represents(a, t, Resolve(UnknownProcedure, contin), labels)
      requires Represents(b, t, Resolve(UnknownProcedure, contin), labels)
      ensures a == b
    {
      assert a in space.Contents() && b in space.Contents();
      RepresentationsAreSame(a, b, t, Resolve(UnknownProcedure, contin), labels);
    }

    /** Translates a program and adds it to the space: its arguments become the variables
        of their columns, and what the space holds already is shared.  A program that is
        there already is found and nothing is added. */
    method Compile(t: ComboTree, contin: bool) returns (a: Atom)
      requires Valid() && Runnable(t, contin, labels, rows)
      modifies this`atoms, space
      ensures Valid() && old(atoms) <= atoms && (forall x | x in atoms :: x in old(atoms) || fresh(x)) && table == old(table)
      ensures a in space.atoms && a in atoms && old(space.atoms) <= space.atoms
      ensures Represents(a, t, Resolve(UnknownProcedure, contin), labels)
      ensures Compiled(t, contin, old(space.atoms)) ==> space.atoms == old(space.atoms) && atoms == old(atoms)
    {
      RunnableMentionsColumns(t, contin);
      a := CompileIntoSpace(t, contin);
    }

    method CompileIntoSpace(t: ComboTree, contin: bool) returns (a: Atom)
      requires Valid() && Supported(t, labels) && MentionsColumns(t, Resolve(UnknownProcedure, contin))
      modifies this`atoms, space
      ensures Valid() && old(atoms) <= atoms && (forall x | x in atoms :: x in old(atoms) || fresh(x)) && table == old(table)
      ensures a in space.atoms && a in atoms && old(space.atoms) <= space.atoms
      ensures Represents(a, t, Resolve(UnknownProcedure, contin), labels)
      ensures Compiled(t, contin, old(space.atoms)) ==> space.atoms == old(space.atoms) && atoms == old(atoms)
    {
      ghost var before := space.atoms;
      a := PutProgram(t, contin);
      JoinSpace(t, contin, before);
    }

    /** What a program has brought into the space joins the other atoms. */
    ghost method JoinSpace(t: ComboTree, contin: bool, before: seq<Atom>)
      requires Steady() && space.Valid() && (forall x | x in before :: x in atoms)
      requires Supported(t, labels) && MentionsColumns(t, Resolve(UnknownProcedure, contin))
      requires GrownBy(before, space.atoms, (k, n) => Mentions(t, Resolve(UnknownProcedure, contin), labels, k, n))
      requires forall i | 0 <= i < |types| :: VariableIn(before, i)
      modifies this`atoms
      ensures Valid() && atoms == old(atoms) + space.Contents()
    {
      NoNewVariable(t, Resolve(UnknownProcedure, contin), before, space.atoms);
      Join(space.Contents());
    }

    /** Translates a program without a space and adds the outcome to the space. */
    method PutProgram(t: ComboTree, contin: bool) returns (a: Atom)
      requires space.Valid() && Supported(t, labels)
      modifies space
      ensures space.Valid() && a in space.atoms && Grounded(a) && Represents(a, t, Resolve(UnknownProcedure, contin), labels)
      ensures GrownBy(old(space.atoms), space.atoms, (k, n) => Mentions(t, Resolve(UnknownProcedure, contin), labels, k, n))
      ensures fresh(space.Contents() - old(space.Contents()))
      ensures Compiled(t, contin, old(space.atoms)) ==> space.atoms == old(space.atoms)
    {
      ghost var made: set<Atom>;
      a, made := TranslateAlone(t, contin);
      a := Put(a, made, t, contin);
    }

    /** The program as blank atoms outside the space. */
    method TranslateAlone(t: ComboTree, contin: bool) returns (a: Atom, ghost made: set<Atom>)
      requires Supported(t, labels)
      ensures fresh(made) && a in made && Blank(made, t, Resolve(UnknownProcedure, contin))
      ensures Represents(a, t, Resolve(UnknownProcedure, contin), labels)
    {
      var translator := new Translator.Returning(contin, labels);
      a, made := translator.Translate(t, UnknownProcedure);
      assert translator.Around(made) == made;
    }

    /** Atoms that stand on themselves, with no variable that the program does not mention. */
    ghost predicate Blank(made: set<Atom>, t: ComboTree, p: Procedure)
      requires Supported(t, labels) && !p.UnknownProcedure?
      reads made
    {
      && Closed(made)
      && forall x | x in made :: x.values == map[] && (IsVariable(x.kind) ==> Mentions(t, p, labels, x.kind, x.name))
    }

    method Put(h: Atom, ghost made: set<Atom>, t: ComboTree, contin: bool) returns (a: Atom)
      requires space.Valid() && Supported(t, labels) && h in made && Blank(made, t, Resolve(UnknownProcedure, contin))
      requires Represents(h, t, Resolve(UnknownProcedure, contin), labels)
      modifies space
      ensures space.Valid() && a in space.atoms && Grounded(a) && Represents(a, t, Resolve(UnknownProcedure, contin), labels)
      ensures GrownBy(old(space.atoms), space.atoms, (k, n) => Mentions(t, Resolve(UnknownProcedure, contin), labels, k, n))
      ensures forall x | x in space.atoms && x !in old(space.atoms) :: x in made || fresh(x)
      ensures Compiled(t, contin, old(space.atoms)) ==> space.atoms == old(space.atoms)
    {
      if Compiled(t, contin, space.atoms) { CompiledIsStored(h, t, contin, space.atoms); }
      a := space.AddAtom(h, made);
      SameContentRepresents(a, h, t, Resolve(UnknownProcedure, contin), labels);
    }

    lemma {:induction false} CompiledIsStored(h: Atom, t: ComboTree, contin: bool, list: seq<Atom>)
      requires Supported(t, labels) && Grounded(h) && Represents(h, t, Resolve(UnknownProcedure, contin), labels)
      requires Compiled(t, contin, list)
      ensures Stored(h, list)
    {
      var p := Resolve(UnknownProcedure, contin);
      var x :| x in list && Grounded(x) && Represents(x, t, p, labels);
      RepresentationsAreSame(x, h, t, p, labels);
    }

    /** Translates a program with a translator that adds arguments to the space but has
        not been told what the program is to return, and guesses it.  The outcome
        represents the program unless the program is an argument that stands alone and
        the guess is wrong; then it goes down to a variable without a column. */
    method CompileInSpace(t: ComboTree, contin: bool) returns (a: Atom, guess: bool)
      requires Valid() && Runnable(t, contin, labels, rows)
      modifies this`atoms, space
      ensures Grounded(a) && Represents(a, t, Resolve(UnknownProcedure, guess), labels)
      ensures Represents(a, t, Resolve(UnknownProcedure, contin), labels) <==> !t.op.Arg? || guess == contin
      ensures !t.op.Arg? || guess == contin ==>
                Valid() && old(atoms) <= atoms && (forall x | x in atoms :: x in old(atoms) || fresh(x)) && table == old(table) && a in atoms
      ensures t.op.Arg? && guess != contin ==> !Covered(a, table)
    {
      RunnableMentionsColumns(t, contin);
      var translator := new Translator.InSpace(space, labels);
      guess := translator.contin;
      if !t.op.Arg? || guess == contin {
        MentionsAlike(t, Resolve(UnknownProcedure, contin), Resolve(UnknownProcedure, guess));
        a := CompileOnColumns(translator, t);
      } else {
        a := GuessedWrong(translator, t, contin);
      }
      if guess != contin {
        OnlyArgumentsAreResolved(a, t, Resolve(UnknownProcedure, guess), Resolve(UnknownProcedure, contin), labels);
      }
    }

    lemma {:induction false} MentionsAlike(t: ComboTree, p: Procedure, q: Procedure)
      requires Supported(t, labels) && !p.UnknownProcedure? && !q.UnknownProcedure? && |types| == |labels|
      requires MentionsColumns(t, p) && (!t.op.Arg? || p == q)
      ensures MentionsColumns(t, q)
    {
      assert forall k, n :: Mentions(t, q, labels, k, n) ==> Mentions(t, p, labels, k, n);
    }

    method GuessedWrong(translator: Translator, t: ComboTree, contin: bool) returns (a: Atom)
      requires Valid() && Runnable(t, contin, labels, rows) && t.op.Arg?
      requires translator.space == space && translator.labels == labels && translator.contin != contin
      requires MentionsColumns(t, Resolve(UnknownProcedure, contin))
      modifies space
      ensures Grounded(a) && Represents(a, t, Resolve(UnknownProcedure, translator.contin), labels) && !Covered(a, table)
    {
      ghost var made: set<Atom>;
      a, made := translator.Translate(t, UnknownProcedure);
      WrongKindHasNoColumn(a, t, contin);
    }

    lemma {:induction false} WrongKindHasNoColumn(a: Atom, t: ComboTree, contin: bool)
      requires |types| == |labels| && GoodLabels(labels) && Supported(t, labels) && t.op.Arg?
      requires MentionsColumns(t, Resolve(UnknownProcedure, contin))
      requires forall v | v in table :: exists i :: IsColumn(v, i)
      requires Grounded(a) && Represents(a, t, Resolve(UnknownProcedure, !contin), labels)
      ensures !Covered(a, table)
    {
      var p, name := Resolve(UnknownProcedure, contin), "$" + ArgLabel(t.op.idx, labels);
      assert Mentions(t, p, labels, NodeKind(p), name);
      var i :| 0 <= i < |types| && NodeKind(p) == ColumnKind(types[i]) && name == "$" + labels[i];
      var v := if t.op.negated then a.outgoing[0] else a;
      NameHasOneKind(v, i);
    }

    lemma {:induction false} NameHasOneKind(v: Atom, i: nat)
      requires |types| == |labels| && GoodLabels(labels) && i < |types|
      requires v.name == "$" + labels[i] && v.kind != ColumnKind(types[i])
      requires forall v | v in table :: exists i :: IsColumn(v, i)
      ensures v !in table
    {
      forall j | IsColumn(v, j) ensures j == i {
        assert v.name[1..] == labels[j] && v.name[1..] == labels[i];
      }
    }

    method CompileOnColumns(translator: Translator, t: ComboTree) returns (a: Atom)
      requires Valid() && Supported(t, labels) && translator.space == space && translator.labels == labels
      requires MentionsColumns(t, Resolve(UnknownProcedure, translator.contin))
      modifies this`atoms, space
      ensures Valid() && old(atoms) <= atoms && (forall x | x in atoms :: x in old(atoms) || fresh(x)) && table == old(table)
      ensures a in atoms && Represents(a, t, Resolve(UnknownProcedure, translator.contin), labels)
    {
      ghost var before := space.atoms;
      ghost var made: set<Atom>;
      a, made := translator.Translate(t, UnknownProcedure);
      NoNewVariable(t, Resolve(UnknownProcedure, translator.contin), before, space.atoms);
      Join(translator.Around(made));
    }

    /** Runs a compiled program.  Whatever ran before, each row of the column is what
        the scalar interpreter returns on that row of the table.  A program that ran
        before is not run again. */
    method Run(a: Atom, ghost t: ComboTree, ghost contin: bool) returns (c: Column)
      requires Valid() && a in atoms && Runnable(t, contin, labels, rows)
      requires Represents(a, t, Resolve(UnknownProcedure, contin), labels)
      modifies interpreter`size, atoms`values
      ensures Valid() && Grown(old(Stores(atoms)), Stores(atoms), key)
      ensures old(key in a.values) || IsConstant(a.kind) ==> Stores(atoms) == old(Stores(atoms))
      ensures key in a.values || IsConstant(a.kind)
      ensures Length(c) == |rows|
      ensures forall r, m | 0 <= r < |rows| :: MixedEval(t, rows[r], m) == Val(Cell(c, r))
    {
      VariablesCovered(atoms, a, table);
      TranslationTyped(a, t, contin, labels, table, rows);
      c := interpreter.Run(a, atoms, table, |rows|);
      forall r, m | 0 <= r < |rows| ensures Length(c) == |rows| && MixedEval(t, rows[r], m) == Val(Cell(c, r)) {
        ColumnsAgreeWithRows(c, a, t, contin, labels, table, rows, m);
      }
      ColumnsAgreeWithRows(c, a, t, contin, labels, table, rows, SomeMath());
    }

    /** Compiles a program, runs it, compiles it once more and runs it again: that is one
        atom, whose stored value the second run gives back. */
    method EvaluateTwice(t: ComboTree, contin: bool) returns (c: Column, again: Column)
      requires Valid() && Runnable(t, contin, labels, rows)
      modifies this`atoms, space, interpreter`size, atoms`values
      ensures Valid() && Length(c) == |rows| && again == c
      ensures forall r, m | 0 <= r < |rows| :: MixedEval(t, rows[r], m) == Val(Cell(c, r))
    {
      var a: Atom;
      a, c := Evaluate(t, contin);
      again := EvaluateAgain(a, t, contin, c);
    }

    method EvaluateAgain(ghost a: Atom, t: ComboTree, contin: bool, ghost c: Column) returns (again: Column)
      requires Valid() && a in space.atoms && a in atoms && Runnable(t, contin, labels, rows)
      requires Represents(a, t, Resolve(UnknownProcedure, contin), labels) && (key in a.values || IsConstant(a.kind))
      requires Length(c) == |rows| && forall r, m | 0 <= r < |rows| :: MixedEval(t, rows[r], m) == Val(Cell(c, r))
      modifies this`atoms, space, interpreter`size, atoms`values
      ensures Valid() && atoms == old(atoms) && space.atoms == old(space.atoms)
      ensures again == c && Stores(atoms) == old(Stores(atoms))
    {
      var b := CompileAgain(a, t, contin);
      again := RunAgain(b, t, contin, c);
    }

    /** Compiling a program once more finds its atom and changes nothing. */
    method CompileAgain(ghost a: Atom, t: ComboTree, contin: bool) returns (b: Atom)
      requires Valid() && a in space.atoms && a in atoms && Runnable(t, contin, labels, rows)
      requires Represents(a, t, Resolve(UnknownProcedure, contin), labels)
      modifies this`atoms, space
      ensures Valid() && b == a && atoms == old(atoms) && space.atoms == old(space.atoms) && Stores(atoms) == old(Stores(atoms))
    {
      b := Compile(t, contin);
      OneAtomForProgram(a, b, t, contin);
    }

    method Evaluate(t: ComboTree, contin: bool) returns (a: Atom, c: Column)
      requires Valid() && Runnable(t, contin, labels, rows)
      modifies this`atoms, space, interpreter`size, atoms`values
      ensures Valid() && a in space.atoms && a in atoms && Represents(a, t, Resolve(UnknownProcedure, contin), labels)
      ensures old(atoms) <= atoms && (forall x | x in atoms :: x in old(atoms) || fresh(x)) && (key in a.values || IsConstant(a.kind)) && Length(c) == |rows|
      ensures forall r, m | 0 <= r < |rows| :: MixedEval(t, rows[r], m) == Val(Cell(c, r))
    {
      a := Compile(t, contin);
      c := Run(a, t, contin);
    }

    method RunAgain(a: Atom, ghost t: ComboTree, ghost contin: bool, ghost c: Column) returns (again: Column)
      requires Valid() && a in atoms && Runnable(t, contin, labels, rows)
      requires Represents(a, t, Resolve(UnknownProcedure, contin), labels) && (key in a.values || IsConstant(a.kind))
      requires Length(c) == |rows| && forall r, m | 0 <= r < |rows| :: MixedEval(t, rows[r], m) == Val(Cell(c, r))
      modifies interpreter`size, atoms`values
      ensures Valid() && again == c && Stores(atoms) == old(Stores(atoms))
    {
      again := Run(a, t, contin);
      forall r | 0 <= r < |rows| ensures Cell(again, r) == Cell(c, r) {
        assert MixedEval(t, rows[r], SomeMath()) == Val(Cell(c, r));
      }
      SameCells(c, again);
    }
  }

  lemma {:induction false} SameCells(c: Column, d: Column)
    requires Length(c) == Length(d) > 0 && forall r | 0 <= r < Length(c) :: Cell(c, r) == Cell(d, r)
    ensures c == d
  {
    assert Cell(c, 0) == Cell(d, 0);
    if c.Links? {
      assert |c.bs| == |d.bs| && forall r | 0 <= r < |c.bs| :: Cell(c, r) == Cell(d, r) && c.bs[r] == d.bs[r];
    } else {
      assert |c.xs| == |d.xs| && forall r | 0 <= r < |c.xs| :: Cell(c, r) == Cell(d, r) && c.xs[r] == d.xs[r];
    }
  }

  lemma {:induction false} BlankAtomsKeepMemo(S: set<Atom>, T: set<Atom>, key: Key, table: Table, n: nat)
    requires Closed(S) && Closed(T) && Memo(S, key, table, n)
    requires forall x | x in T && x !in S :: x.values == map[] && !IsVariable(x.kind)
    ensures Closed(S + T) && Memo(S + T, key, table, n)
  {
  }

  function SomeMath(): Math { Math(x => Finite(0.0), x => Finite(0.0), x => 0.0) }

  lemma {:induction false} VariablesCovered(S: set<Atom>, a: Atom, table: Table)
    requires Closed(S) && a in S && forall x | x in S && IsVariable(x.kind) :: x in table
    ensures Covered(a, table)
    decreases a.height
  {
    forall i | 0 <= i < |a.outgoing| ensures Covered(a.outgoing[i], table) {
      VariablesCovered(S, a.outgoing[i], table);
    }
  }

  lemma {:induction false} TranslationTyped(a: Atom, t: ComboTree, contin: bool, labels: seq<string>,
                                            table: Table, rows: seq<seq<Vertex>>)
    requires Runnable(t, contin, labels, rows) && Grounded(a)
    requires Represents(a, t, Resolve(UnknownProcedure, contin), labels)
    requires Covered(a, table) && Tabulates(table, rows, labels)
    ensures TypedAtom(a, table, |rows|)
  {
    SaturatedParts(t);
    var args := SignatureInputs(InferType(t));
    TranslationAgrees(a, t, Resolve(UnknownProcedure, contin), args, labels, table, rows, 0, SomeMath());
  }
}
