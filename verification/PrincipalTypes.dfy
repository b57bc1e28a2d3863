/** Inference finds the types of the arguments wherever there are any. */
module PrincipalTypes {
  import opened Trees
  import opened TypeTrees
  import opened TypeReduce
  import opened Combo
  import opened TypeInference
  import opened TypeSoundness

  // ---------------------------------------------------------------- occurrences

  /** Argument i stands somewhere in the program. */
  predicate Occurs(t: ComboTree, i: nat) {
    if t.kids == [] then t.op.Arg? && t.op.idx == i
    else exists k | 0 <= k < |t.kids| :: Occurs(t.kids[k], i)
  }

  ghost predicate Among(leaves: seq<LeafAt>, i: nat) { exists n | 0 <= n < |leaves| :: IsArg(leaves[n], i) }

  lemma {:induction false} AmongBoth(a: seq<LeafAt>, b: seq<LeafAt>, i: nat)
    ensures Among(a + b, i) <==> Among(a, i) || Among(b, i)
  {
    var c := a + b;
    if Among(a, i) {
      var n :| 0 <= n < |a| && IsArg(a[n], i);
      assert c[n] == a[n];
    }
    if Among(b, i) {
      var n :| 0 <= n < |b| && IsArg(b[n], i);
      assert c[|a| + n] == b[n];
    }
  }

  lemma {:induction false} OccursAmongLeaves(t: ComboTree, place: Place, i: nat)
    ensures Occurs(t, i) <==> Among(LeavesOf(t, place), i)
    decreases t
  {
    if t.kids == [] {
      assert LeavesOf(t, place)[0] == LeafAt(t.op, place);
    } else {
      OccursBelow(t.op, t.kids, 0, i);
    }
  }

  lemma {:induction false} OccursBelow(v: Vertex, ts: seq<ComboTree>, position: nat, i: nat)
    ensures (exists k | 0 <= k < |ts| :: Occurs(ts[k], i)) <==> Among(LeavesBelow(v, ts, position), i)
    decreases ts
  {
    if ts != [] {
      OccursAmongLeaves(ts[0], Below(v, position), i);
      OccursBelow(v, ts[1..], position + 1, i);
      AmongBoth(LeavesOf(ts[0], Below(v, position)), LeavesBelow(v, ts[1..], position + 1), i);
      if k :| 0 <= k < |ts| && Occurs(ts[k], i) {
        if k > 0 { assert ts[1..][k - 1] == ts[k]; }
      }
      if k :| 0 <= k < |ts| - 1 && Occurs(ts[1..][k], i) { assert ts[k + 1] == ts[1..][k]; }
    }
  }

  // ---------------------------------------------------------------- what the contexts expect

  /** Each argument has the type that is expected wherever it stands. */
  ghost predicate Fits(leaves: seq<LeafAt>, xs: seq<TypeTree>) {
    forall n | 0 <= n < |leaves| && leaves[n].v.Arg? ::
      ScalarType(ArgType(leaves[n].v.idx, xs)) && ExpectedType(leaves[n].place) == ArgType(leaves[n].v.idx, xs)
  }

  /** The operands of a typed operator have the types expected of them. */
  lemma {:induction false} OperandsExpected(t: ComboTree, xs: seq<TypeTree>)
    requires LeafTypes(xs) && Operable(t) && t.kids != [] && ScalarType(TypeOf(t, xs))
    ensures forall i | 0 <= i < |t.kids| ::
      ScalarType(TypeOf(t.kids[i], xs)) && ExpectedType(Below(t.op, i)) == TypeOf(t.kids[i], xs)
  {
    var b, ts := t.op.b, TypesOf(t.kids, xs);
    TableIsElementary(b);
    if TypeOfBuiltin(b).Fixed? {
      var ps := TypeOfBuiltin(b).params;
      EachInherits(ts, Leaves(ps));
      forall i | 0 <= i < |t.kids|
        ensures ScalarType(TypeOf(t.kids[i], xs)) && ExpectedType(Below(t.op, i)) == TypeOf(t.kids[i], xs)
      {
        assert Inherit(ts[i], Leaves(ps)[i]);
        ParametersAreScalar(b, i);
      }
    } else {
      AllInheritSame(ts, Leaf(TypeOfBuiltin(b).param));
      assert forall i | 0 <= i < |t.kids| :: ts[i] == TypeOf(t.kids[i], xs);
    }
  }

  lemma {:induction false} TypedFits(t: ComboTree, place: Place, xs: seq<TypeTree>)
    requires LeafTypes(xs) && Operable(t) && ScalarType(TypeOf(t, xs))
    requires t.kids != [] || !t.op.Arg? || ExpectedType(place) == TypeOf(t, xs)
    ensures Fits(LeavesOf(t, place), xs)
    decreases t
  {
    if t.kids != [] {
      OperandsExpected(t, xs);
      AllTypedFit(t.op, t.kids, 0, xs);
    }
  }

  /** The programs have the types expected below v from the position on. */
  ghost predicate AsExpected(v: Vertex, ts: seq<ComboTree>, position: nat, xs: seq<TypeTree>) {
    && LeafTypes(xs) && (forall i | 0 <= i < |ts| :: Operable(ts[i]))
    && forall i | 0 <= i < |ts| :: ScalarType(TypeOf(ts[i], xs)) && TypeOf(ts[i], xs) == ExpectedType(Below(v, position + i))
  }

  lemma {:induction false} RestAsExpected(v: Vertex, ts: seq<ComboTree>, position: nat, xs: seq<TypeTree>)
    requires AsExpected(v, ts, position, xs) && ts != []
    ensures AsExpected(v, ts[1..], position + 1, xs)
    ensures ScalarType(TypeOf(ts[0], xs)) && ExpectedType(Below(v, position)) == TypeOf(ts[0], xs)
  {
    forall i | 0 <= i < |ts| - 1
      ensures ScalarType(TypeOf(ts[1..][i], xs)) && TypeOf(ts[1..][i], xs) == ExpectedType(Below(v, position + 1 + i))
    {
      assert ts[1..][i] == ts[i + 1] && Below(v, position + 1 + i) == Below(v, position + (i + 1));
    }
    assert Below(v, position + 0) == Below(v, position);
  }

  lemma {:induction false} FitBoth(a: seq<LeafAt>, b: seq<LeafAt>, xs: seq<TypeTree>)
    requires Fits(a, xs) && Fits(b, xs)
    ensures Fits(a + b, xs)
  {
  }

  lemma {:induction false} AllTypedFit(v: Vertex, ts: seq<ComboTree>, position: nat, xs: seq<TypeTree>)
    requires AsExpected(v, ts, position, xs)
    ensures Fits(LeavesBelow(v, ts, position), xs)
    decreases ts
  {
    if ts != [] {
      RestAsExpected(v, ts, position, xs);
      TypedFits(ts[0], Below(v, position), xs);
      AllTypedFit(v, ts[1..], position + 1, xs);
      FitBoth(LeavesOf(ts[0], Below(v, position)), LeavesBelow(v, ts[1..], position + 1), xs);
    }
  }

  // ---------------------------------------------------------------- what the narrowing finds

  /** Where the contexts agree, an argument gets the type they expect, and one that does not
      occur keeps the unknown type. */
  lemma {:induction false} NarrowingFinds(leaves: seq<LeafAt>, xs: seq<TypeTree>, i: nat)
    requires Fits(leaves, xs)
    ensures LeafTypes([]) && ArgType(i, NarrowAll(leaves, [])) == if Among(leaves, i) then ArgType(i, xs) else Leaf(Unknown)
  {
    var r, s := ArgType(i, NarrowAll(leaves, [])), ArgType(i, xs);
    NarrowAllIsMeet(leaves, [], i);
    assert LeafType(r);
    if Among(leaves, i) {
      var n :| 0 <= n < |leaves| && IsArg(leaves[n], i);
      assert ScalarType(s) && ExpectedType(leaves[n].place) == s;
      assert Inherit(s, Leaf(Unknown)) && BelowContexts(s, leaves, i);
      assert Inherit(s, r) && Inherit(r, ExpectedType(leaves[n].place));
    } else {
      assert Inherit(Leaf(Unknown), Leaf(Unknown)) && BelowContexts(Leaf(Unknown), leaves, i);
    }
  }

  /** The number of argument types is that of the highest argument. */
  lemma {:induction false} NarrowingCounts(leaves: seq<LeafAt>, args: seq<TypeTree>, i: nat)
    requires LeafTypes(args)
    ensures i < |NarrowAll(leaves, args)| <==> i < |args| || exists n | 0 <= n < |leaves| :: leaves[n].v.Arg? && leaves[n].v.idx >= i
  {
    if leaves != [] {
      NarrowingCounts(leaves[1..], NarrowArgType(leaves[0], args), i);
      if n :| 0 <= n < |leaves| && leaves[n].v.Arg? && leaves[n].v.idx >= i {
        if n > 0 { assert leaves[1..][n - 1] == leaves[n]; }
      }
      if n :| 0 <= n < |leaves| - 1 && leaves[1..][n].v.Arg? && leaves[1..][n].v.idx >= i {
        assert leaves[n + 1] == leaves[1..][n];
      }
    }
  }

  // ---------------------------------------------------------------- the type depends on what occurs

  lemma {:induction false} TypeOfSame(t: ComboTree, xs: seq<TypeTree>, ys: seq<TypeTree>)
    requires LeafTypes(xs) && LeafTypes(ys) && Operable(t)
    requires forall i: nat | Occurs(t, i) :: ArgType(i, xs) == ArgType(i, ys)
    ensures TypeOf(t, xs) == TypeOf(t, ys)
    decreases t
  {
    if t.kids == [] {
      if t.op.Arg? { assert Occurs(t, t.op.idx); }
    } else {
      forall k | 0 <= k < |t.kids| ensures TypeOf(t.kids[k], xs) == TypeOf(t.kids[k], ys) {
        forall i: nat | Occurs(t.kids[k], i) ensures ArgType(i, xs) == ArgType(i, ys) { assert Occurs(t, i); }
        TypeOfSame(t.kids[k], xs, ys);
      }
      assert TypesOf(t.kids, xs) == TypesOf(t.kids, ys);
    }
  }

  // ---------------------------------------------------------------- completeness

  /** Under some argument types the program is boolean or contin. */
  ghost predicate Typable(t: ComboTree)
    requires Operable(t)
  {
    exists xs :: LeafTypes(xs) && ScalarType(TypeOf(t, xs))
  }

  /** Types under which a program is boolean or contin are those that inference finds, for
      all arguments that occur: no program has two. */
  lemma {:induction false} InferenceFindsTypes(t: ComboTree, xs: seq<TypeTree>)
    requires Operable(t) && !t.op.Arg? && LeafTypes(xs) && ScalarType(TypeOf(t, xs))
    ensures var args := NarrowAll(LeavesOf(t, Root), []);
            && TypeOf(t, args) == TypeOf(t, xs)
            && forall i: nat :: ArgType(i, args) == if Occurs(t, i) then ArgType(i, xs) else Leaf(Unknown)
  {
    var leaves, args := LeavesOf(t, Root), NarrowAll(LeavesOf(t, Root), []);
    TypedFits(t, Root, xs);
    forall i: nat ensures ArgType(i, args) == if Occurs(t, i) then ArgType(i, xs) else Leaf(Unknown) {
      OccursAmongLeaves(t, Root, i);
      NarrowingFinds(leaves, xs, i);
    }
    TypeOfSame(t, args, xs);
  }

  /** The inputs of the signature are as many as the highest argument says. */
  lemma {:induction false} ArgumentsCounted(t: ComboTree, i: nat)
    ensures i < |NarrowAll(LeavesOf(t, Root), [])| <==> exists j | j >= i :: Occurs(t, j)
  {
    var leaves := LeavesOf(t, Root);
    NarrowingCounts(leaves, [], i);
    if j :| j >= i && Occurs(t, j) {
      OccursAmongLeaves(t, Root, j);
      var n :| 0 <= n < |leaves| && IsArg(leaves[n], j);
    }
    if n :| 0 <= n < |leaves| && leaves[n].v.Arg? && leaves[n].v.idx >= i {
      assert IsArg(leaves[n], leaves[n].v.idx);
      OccursAmongLeaves(t, Root, leaves[n].v.idx);
    }
  }

  lemma {:induction false} SignatureWellFormed(args: seq<TypeTree>, n: nat, r: TypeTree)
    requires ScalarType(r) && LeafTypes(args) && forall i | 0 <= i < |args| :: WellFormed(args[i])
    ensures WellFormed(InsertArgTypes(args, Opened(n, r)))
  {
    var sig := InsertArgTypes(args, Opened(n, r));
    forall i | 0 <= i < |sig.kids| ensures WellFormed(sig.kids[i]) {
      if args != [] && i < |args| {
        assert sig.kids[i] == args[i];
      } else {
        assert sig.kids[i] == r || sig.kids[i] == Node(ArgList, [Leaf(Contin)]);
      }
    }
  }

  /** Inference is complete: a program that is no argument alone gets a well-formed signature
      with a boolean or contin result if and only if there are types for its arguments under
      which it is boolean or contin. */
  lemma {:induction false} InfersExactly(t: ComboTree)
    requires Operable(t) && !t.op.Arg?
    ensures var sig := InferType(t);
            (sig.op.Lambda? ==> sig.kids != []) && (WellFormed(sig) && ScalarType(SignatureOutput(sig)) <==> Typable(t))
  {
    InferTypeParts(t);
    assert LeafTypes(NarrowAll(LeavesOf(t, Root), []));
    if xs :| LeafTypes(xs) && ScalarType(TypeOf(t, xs)) { TypableIsTyped(t, xs); }
  }

  lemma {:induction false} TypableIsTyped(t: ComboTree, xs: seq<TypeTree>)
    requires Operable(t) && !t.op.Arg? && LeafTypes(xs) && ScalarType(TypeOf(t, xs))
    ensures var sig := InferType(t); (sig.op.Lambda? ==> sig.kids != []) && WellFormed(sig) && ScalarType(SignatureOutput(sig))
  {
    var args := NarrowAll(LeavesOf(t, Root), []);
    InferTypeParts(t);
    InferenceFindsTypes(t, xs);
    forall i | 0 <= i < |args| ensures WellFormed(args[i]) {
      assert ArgType(i, args) == args[i];
      if Occurs(t, i) { TypedArgument(t, xs, i); }
    }
    LeafTypesAreArgTypes(args);
    ReduceIsTypeOf(t, args);
    SignatureWellFormed(args, Opens(t), TypeOf(t, args));
  }

  lemma {:induction false} TypedArgument(t: ComboTree, xs: seq<TypeTree>, i: nat)
    requires Operable(t) && !t.op.Arg? && LeafTypes(xs) && ScalarType(TypeOf(t, xs)) && Occurs(t, i)
    ensures ScalarType(ArgType(i, xs))
  {
    var leaves := LeavesOf(t, Root);
    TypedFits(t, Root, xs);
    OccursAmongLeaves(t, Root, i);
    var n :| 0 <= n < |leaves| && IsArg(leaves[n], i);
  }

  /** An argument alone is expected to have no type in particular, and gets none. */
  lemma {:induction false} LoneArgument(i: nat, negated: bool)
    ensures var t := Node(Arg(i, negated), []); Operable(t) && SignatureOutput(InferType(t)) == Leaf(Unknown)
  {
    var t := Node(Arg(i, negated), []);
    var leaves := [LeafAt(t.op, Root)];
    assert LeavesOf(t, Root) == leaves && leaves[1..] == [];
    assert NarrowAll(leaves, []) == NarrowArgType(leaves[0], []);
    InferTypeParts(t);
  }
}
