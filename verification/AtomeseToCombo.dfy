/** Translation of atoms back to Combo programs, and the round trip. */
module AtomeseToCombo {
  import opened Options
  import opened Trees
  import opened TypeTrees
  import opened TypeReduce
  import opened Combo
  import opened ScalarInterpreter
  import opened TypeInference
  import opened TypeSoundness
  import opened Atoms
  import opened Labels
  import opened ComboToAtomese
  import ColumnAgreement

  // ---------------------------------------------------------------- translation

  function Enter(labels: seq<string>, l: string): seq<string> {
    if l in labels then labels else labels + [l]
  }

  function LinkBuiltin(k: Kind): Builtin
    requires !IsVariable(k) && !k.NumberNode?
  {
    match k
    case TrueLink => True
    case FalseLink => False
    case AndLink => And
    case OrLink => Or
    case NotLink => Not
    case PlusLink => Plus
    case TimesLink => Times
    case GreaterThanLink => GreaterThanZero
    case ImpulseLink => Impulse
  }

  /** The program read so far with the labels met so far; None where an assertion fails. */
  type Reading = Option<(ComboTree, seq<string>)>

  function Read(h: Atom, labels: seq<string>): Reading
    requires Grounded(h)
    decreases h.height, |h.outgoing| + 1
  {
    if IsVariable(h.kind) then
      var names := ScanVariables(h.name, false, "", []);
      if names == [] then None
      else
        var labels' := Enter(labels, names[0]);
        Some((Node(Arg(IndexOf(labels', names[0]), false), []), labels'))
    else if h.kind.NumberNode? then
      Some((Node(Num(h.number), []), labels))
    else if h.kind.GreaterThanLink? && !IsComparedToZero(h) then
      None
    else
      match ReadOutgoing(h, if h.kind.GreaterThanLink? then 1 else |h.outgoing|, labels)
      case None => None
      case Some((kids, labels')) => Some((Node(Op(LinkBuiltin(h.kind)), kids), labels'))
  }

  predicate IsComparedToZero(h: Atom) {
    |h.outgoing| == 2 && h.outgoing[1].kind.NumberNode? && h.outgoing[1].number == 0.0
  }

  /** The first k outgoing atoms, in order. */
  function ReadOutgoing(h: Atom, k: nat, labels: seq<string>): Option<(seq<ComboTree>, seq<string>)>
    requires Grounded(h) && k <= |h.outgoing|
    decreases h.height, k
  {
    if k == 0 then Some(([], labels))
    else
      match ReadOutgoing(h, k - 1, labels)
      case None => None
      case Some((kids, labels')) =>
        match Read(h.outgoing[k - 1], labels')
        case None => None
        case Some((kid, labels'')) => Some((kids + [kid], labels''))
  }

  /** The recursive walk: a loop over the outgoing set that adds labels as they are met
      and stops behind the first operand of a comparison. */
  class Reader {
    var labels: seq<string>

    constructor ()
      ensures labels == []
    {
      labels := [];
    }

    method AtomToCombo(h: Atom) returns (ok: bool, t: ComboTree)
      requires Grounded(h)
      modifies this
      ensures if ok then Read(h, old(labels)) == Some((t, labels)) else Read(h, old(labels)) == None
      decreases h.height
    {
      t := Node(Num(h.number), []);
      if IsVariable(h.kind) {
        var names := ParseComboVariables(h.name);
        if names == [] { return false, t; }
        var i := IndexOf(labels, names[0]);
        if i >= |labels| {
          NewIndex(labels, names[0]);
          labels := labels + [names[0]];
        }
        return true, Node(Arg(i, false), []);
      }
      if h.kind.NumberNode? { return true, t; }
      if h.kind.GreaterThanLink? && !IsComparedToZero(h) { return false, t; }
      var stop := if h.kind.GreaterThanLink? then 1 else |h.outgoing|;
      var kids: seq<ComboTree> := [];
      for k := 0 to stop
        invariant ReadOutgoing(h, k, old(labels)) == Some((kids, labels))
      {
        var fine, kid := AtomToCombo(h.outgoing[k]);
        if !fine {
          ReadingFails(h, k + 1, stop, old(labels));
          return false, t;
        }
        kids := kids + [kid];
      }
      return true, Node(Op(LinkBuiltin(h.kind)), kids);
    }
  }

  lemma {:induction false} NewIndex(labels: seq<string>, l: string)
    requires l !in labels
    ensures IndexOf(labels, l) == |labels| == IndexOf(labels + [l], l)
  {
    if labels != [] {
      NewIndex(labels[1..], l);
      assert (labels + [l])[1..] == labels[1..] + [l];
    }
  }

  lemma {:induction false} ReadingFails(h: Atom, k: nat, n: nat, labels: seq<string>)
    requires Grounded(h) && k <= n <= |h.outgoing| && ReadOutgoing(h, k, labels) == None
    ensures ReadOutgoing(h, n, labels) == None
    decreases n
  {
    if k < n { ReadingFails(h, k, n - 1, labels); }
  }

  // ---------------------------------------------------------------- what comes back

  /** Programs on which the translation forgets nothing: leaves have no children,
      comparisons one operand, and negated arguments are taken for predicates. */
  predicate RoundTrips(t: ComboTree, p: Procedure) {
    match t.op
    case Arg(_, negated) => t.kids == [] && (negated ==> p.Predicate?)
    case Num(_) => t.kids == []
    case Op(b) =>
      && Translatable(b)
      && (b.True? || b.False? ==> t.kids == [])
      && (b.GreaterThanZero? ==> |t.kids| == 1)
      && forall i | 0 <= i < |t.kids| :: RoundTrips(t.kids[i], OperandProcedure(b))
  }

  /** The program with arguments renumbered by their place among the labels and
      negated arguments spelled out. */
  function Renumber(t: ComboTree, names: seq<string>, labels: seq<string>): ComboTree
    requires Supported(t, names)
    decreases t
  {
    match t.op
    case Arg(i, negated) =>
      var arg := Node(Arg(IndexOf(labels, ArgLabel(i, names)), false), []);
      if negated then Node(Op(Not), [arg]) else arg
    case _ => Node(t.op, RenumberAll(t.kids, names, labels))
  }

  function RenumberAll(ts: seq<ComboTree>, names: seq<string>, labels: seq<string>): (r: seq<ComboTree>)
    requires forall i | 0 <= i < |ts| :: Supported(ts[i], names)
    ensures |r| == |ts| && forall i | 0 <= i < |ts| :: r[i] == Renumber(ts[i], names, labels)
    decreases ts
  {
    if ts == [] then [] else [Renumber(ts[0], names, labels)] + RenumberAll(ts[1..], names, labels)
  }

  /** Every label the program uses is in the list. */
  predicate Met(t: ComboTree, names: seq<string>, labels: seq<string>)
    requires Supported(t, names)
  {
    && (t.op.Arg? ==> ArgLabel(t.op.idx, names) in labels)
    && forall i | 0 <= i < |t.kids| :: Met(t.kids[i], names, labels)
  }

  lemma {:induction false} IndexOfPrefix(labels: seq<string>, more: seq<string>, l: string)
    requires labels <= more && l in labels
    ensures l in more && IndexOf(more, l) == IndexOf(labels, l)
  {
    if labels[0] != l {
      assert labels[1..] <= more[1..];
      IndexOfPrefix(labels[1..], more[1..], l);
    }
  }

  /** Later labels do not renumber anything. */
  lemma {:induction false} RenumberPrefix(t: ComboTree, names: seq<string>, labels: seq<string>, more: seq<string>)
    requires Supported(t, names) && labels <= more && Met(t, names, labels)
    ensures Renumber(t, names, more) == Renumber(t, names, labels) && Met(t, names, more)
    decreases t
  {
    forall i | 0 <= i < |t.kids|
      ensures Renumber(t.kids[i], names, more) == Renumber(t.kids[i], names, labels) && Met(t.kids[i], names, more)
    {
      RenumberPrefix(t.kids[i], names, labels, more);
    }
    assert RenumberAll(t.kids, names, more) == RenumberAll(t.kids, names, labels);
    if t.op.Arg? { IndexOfPrefix(labels, more, ArgLabel(t.op.idx, names)); }
  }

  ghost predicate ReadsAs(r: Reading, t: ComboTree, names: seq<string>, labels: seq<string>)
    requires Supported(t, names)
  {
    && r.Some? && labels <= r.value.1 && Met(t, names, r.value.1)
    && r.value.0 == Renumber(t, names, r.value.1)
  }

  lemma {:induction false} ReadVariable(h: Atom, i: nat, kind: Kind, names: seq<string>, labels: seq<string>)
    requires GoodLabels(names) && Labelled(i, names) && IsVariable(kind)
    requires Grounded(h) && IsVariableNamed(h, kind, ArgLabel(i, names))
    ensures ReadsAs(Read(h, labels), Node(Arg(i, false), []), names, labels)
  {
    ArgLabelClean(i, names);
    NameRoundTrip(ArgLabel(i, names));
  }

  /** Reading a translation gives back the program, renumbered. */
  lemma {:induction false} ReadTranslation(h: Atom, t: ComboTree, p: Procedure, names: seq<string>, labels: seq<string>)
    requires GoodLabels(names) && Supported(t, names) && !p.UnknownProcedure? && RoundTrips(t, p)
    requires Grounded(h) && Represents(h, t, p, names)
    ensures ReadsAs(Read(h, labels), t, names, labels)
    decreases t, |t.kids| + 1
  {
    if t.op.Arg? {
      ReadArgument(h, t, p, names, labels);
    } else if t.op.Op? {
      ReadOperands(h, t, |t.kids|, p, names, labels);
      ReadLink(h, t, p, names, labels);
    }
  }

  lemma {:induction false} ReadArgument(h: Atom, t: ComboTree, p: Procedure, names: seq<string>, labels: seq<string>)
    requires GoodLabels(names) && Supported(t, names) && !p.UnknownProcedure? && RoundTrips(t, p)
    requires Grounded(h) && Represents(h, t, p, names) && t.op.Arg?
    ensures ReadsAs(Read(h, labels), t, names, labels)
  {
    if t.op.negated {
      ReadVariable(h.outgoing[0], t.op.idx, PredicateNode, names, labels);
      ReadSingle(h, labels);
    } else {
      ReadVariable(h, t.op.idx, h.kind, names, labels);
    }
  }

  lemma {:induction false} ReadLink(h: Atom, t: ComboTree, p: Procedure, names: seq<string>, labels: seq<string>)
    requires GoodLabels(names) && Supported(t, names) && !p.UnknownProcedure? && RoundTrips(t, p)
    requires Grounded(h) && Represents(h, t, p, names) && t.op.Op?
    requires var r := ReadOutgoing(h, |t.kids|, labels);
             && r.Some? && labels <= r.value.1 && |r.value.0| == |t.kids|
             && forall i | 0 <= i < |t.kids| :: Met(t.kids[i], names, r.value.1) && r.value.0[i] == Renumber(t.kids[i], names, r.value.1)
    ensures ReadsAs(Read(h, labels), t, names, labels)
  {
    var (kids, labels') := ReadOutgoing(h, |t.kids|, labels).value;
    assert kids == RenumberAll(t.kids, names, labels');
    assert Renumber(t, names, labels') == Node(t.op, kids);
    LinkShape(h, t, p, names);
    LinkRead(h, |t.kids|, t.op.b, kids, labels, labels');
  }

  lemma {:induction false} LinkShape(h: Atom, t: ComboTree, p: Procedure, names: seq<string>)
    requires Supported(t, names) && !p.UnknownProcedure? && RoundTrips(t, p)
    requires Grounded(h) && Represents(h, t, p, names) && t.op.Op?
    ensures !IsVariable(h.kind) && !h.kind.NumberNode? && LinkBuiltin(h.kind) == t.op.b
    ensures h.kind.GreaterThanLink? ==> IsComparedToZero(h) && |t.kids| == 1
    ensures !h.kind.GreaterThanLink? ==> |h.outgoing| == |t.kids|
  {
  }

  lemma {:induction false} LinkRead(h: Atom, k: nat, b: Builtin, kids: seq<ComboTree>, labels: seq<string>, labels': seq<string>)
    requires Grounded(h) && !IsVariable(h.kind) && !h.kind.NumberNode? && LinkBuiltin(h.kind) == b
    requires if h.kind.GreaterThanLink? then IsComparedToZero(h) && k == 1 else |h.outgoing| == k
    requires k <= |h.outgoing| && ReadOutgoing(h, k, labels) == Some((kids, labels'))
    ensures Read(h, labels) == Some((Node(Op(b), kids), labels'))
  {
  }

  lemma {:induction false} ReadSingle(h: Atom, labels: seq<string>)
    requires Grounded(h) && h.kind.NotLink? && |h.outgoing| == 1
    ensures Read(h.outgoing[0], labels).Some? ==>
              Read(h, labels) == Some((Node(Op(Not), [Read(h.outgoing[0], labels).value.0]), Read(h.outgoing[0], labels).value.1))
  {
    assert ReadOutgoing(h, 0, labels) == Some(([], labels));
    var nothing: seq<ComboTree> := [];
    assert forall x :: nothing + [x] == [x];
  }

  lemma {:induction false} ReadOperands(h: Atom, t: ComboTree, k: nat, p: Procedure, names: seq<string>, labels: seq<string>)
    requires GoodLabels(names) && Supported(t, names) && !p.UnknownProcedure? && RoundTrips(t, p)
    requires Grounded(h) && Represents(h, t, p, names) && t.op.Op? && k <= |t.kids|
    ensures var r := ReadOutgoing(h, k, labels);
            && r.Some? && labels <= r.value.1 && |r.value.0| == k
            && forall i | 0 <= i < k :: Met(t.kids[i], names, r.value.1) && r.value.0[i] == Renumber(t.kids[i], names, r.value.1)
    decreases t, k
  {
    if k > 0 {
      ReadOperands(h, t, k - 1, p, names, labels);
      var (kids, before) := ReadOutgoing(h, k - 1, labels).value;
      ReadTranslation(h.outgoing[k - 1], t.kids[k - 1], OperandProcedure(t.op.b), names, before);
      var after := Read(h.outgoing[k - 1], before).value.1;
      forall i | 0 <= i < k - 1 ensures Met(t.kids[i], names, after) && kids[i] == Renumber(t.kids[i], names, after) {
        RenumberPrefix(t.kids[i], names, before, after);
      }
    }
  }

  // ---------------------------------------------------------------- meaning of the renumbered program

  /** The new inputs hold, at each label's position, the input of the argument so labelled. */
  ghost predicate Permuted(inputs: seq<Vertex>, inputs': seq<Vertex>, names: seq<string>, labels: seq<string>) {
    forall i: nat, k | Labelled(i, names) && 0 <= k < |labels| && labels[k] == ArgLabel(i, names) ::
      i < |inputs| && k < |inputs'| && inputs'[k] == inputs[i]
  }

  lemma {:induction false} RenumberKeepsMeaning(t: ComboTree, names: seq<string>, labels: seq<string>,
                                               inputs: seq<Vertex>, inputs': seq<Vertex>, m: Math)
    requires Supported(t, names) && Met(t, names, labels) && Permuted(inputs, inputs', names, labels)
    ensures MixedEval(Renumber(t, names, labels), inputs', m) == MixedEval(t, inputs, m)
    decreases t
  {
    var t' := Renumber(t, names, labels);
    if t.op.Arg? {
      var k := IndexOf(labels, ArgLabel(t.op.idx, names));
      assert labels[k] == ArgLabel(t.op.idx, names);
      var arg: ComboTree := Node(Arg(k, false), []);
      assert MixedEval(arg, inputs', m) == Val(inputs[t.op.idx]);
      if t.op.negated {
        assert t' == Node(Op(Not), [arg]) && t'.kids[0] == arg;
        assert MixedEval(t', inputs', m) == Negate(BooleanEval(arg, inputs', m));
      }
    } else {
      forall i | 0 <= i < |t.kids|
        ensures MixedEval(t'.kids[i], inputs', m) == MixedEval(t.kids[i], inputs, m)
      {
        RenumberKeepsMeaning(t.kids[i], names, labels, inputs, inputs', m);
      }
      if t.op.Op? { SameOperandsSameValue(t.op.b, t.kids, t'.kids, inputs, inputs', m); }
    }
  }

  ghost predicate SameValues(ts: seq<ComboTree>, ts': seq<ComboTree>, inputs: seq<Vertex>, inputs': seq<Vertex>, m: Math) {
    |ts| == |ts'| && forall i | 0 <= i < |ts| :: MixedEval(ts'[i], inputs', m) == MixedEval(ts[i], inputs, m)
  }

  lemma {:induction false} SameOperandsSameValue(b: Builtin, ts: seq<ComboTree>, ts': seq<ComboTree>, inputs: seq<Vertex>, inputs': seq<Vertex>, m: Math)
    requires Translatable(b) && SameValues(ts, ts', inputs, inputs', m)
    ensures MixedEval(Node(Op(b), ts'), inputs', m) == MixedEval(Node(Op(b), ts), inputs, m)
  {
    match b {
      case And => SameUntil(False, True, ts, ts', inputs, inputs', m);
      case Or => SameUntil(True, False, ts, ts', inputs, inputs', m);
      case Plus => SameSum(0.0, ts, ts', inputs, inputs', m);
      case Times => SameProduct(1.0, ts, ts', inputs, inputs', m);
      case _ =>
    }
  }

  lemma {:induction false} SameUntil(stop: Builtin, otherwise: Builtin, ts: seq<ComboTree>, ts': seq<ComboTree>,
                                     inputs: seq<Vertex>, inputs': seq<Vertex>, m: Math)
    requires SameValues(ts, ts', inputs, inputs', m)
    ensures Until(stop, otherwise, ts', inputs', m) == Until(stop, otherwise, ts, inputs, m)
  {
    if ts != [] { SameUntil(stop, otherwise, ts[1..], ts'[1..], inputs, inputs', m); }
  }

  lemma {:induction false} SameSum(acc: real, ts: seq<ComboTree>, ts': seq<ComboTree>, inputs: seq<Vertex>, inputs': seq<Vertex>, m: Math)
    requires SameValues(ts, ts', inputs, inputs', m)
    ensures Sum(acc, ts', inputs', m) == Sum(acc, ts, inputs, m)
    decreases ts
  {
    if ts != [] {
      var o := ContinEval(ts[0], inputs, m);
      if o.Val? && o.v.Num? { SameSum(acc + o.v.r, ts[1..], ts'[1..], inputs, inputs', m); }
    }
  }

  lemma {:induction false} SameProduct(acc: real, ts: seq<ComboTree>, ts': seq<ComboTree>, inputs: seq<Vertex>, inputs': seq<Vertex>, m: Math)
    requires SameValues(ts, ts', inputs, inputs', m)
    ensures Product(acc, ts', inputs', m) == Product(acc, ts, inputs, m)
    decreases ts
  {
    if ts != [] {
      var o := ContinEval(ts[0], inputs, m);
      if o.Val? && o.v.Num? { SameProduct(Mul(acc, o.v.r), ts[1..], ts'[1..], inputs, inputs', m); }
    }
  }

  /** Reading back a translation gives a program with the same value on the inputs
      permuted by the labels it returns. */
  lemma {:induction false} RoundTripKeepsMeaning(h: Atom, t: ComboTree, p: Procedure, names: seq<string>)
    requires GoodLabels(names) && Supported(t, names) && !p.UnknownProcedure? && RoundTrips(t, p)
    requires Grounded(h) && Represents(h, t, p, names)
    ensures Read(h, []).Some?
    ensures var (t', labels) := Read(h, []).value;
            forall inputs, inputs', m | Permuted(inputs, inputs', names, labels) ::
              MixedEval(t', inputs', m) == MixedEval(t, inputs, m)
  {
    ReadTranslation(h, t, p, names, []);
    var (t', labels) := Read(h, []).value;
    forall inputs, inputs', m | Permuted(inputs, inputs', names, labels)
      ensures MixedEval(t', inputs', m) == MixedEval(t, inputs, m)
    {
      RenumberKeepsMeaning(t, names, labels, inputs, inputs', m);
    }
  }

  // ---------------------------------------------------------------- inputs for the program read back

  /** The label is that of an argument of the program. */
  predicate Names(t: ComboTree, names: seq<string>, l: string)
    requires Supported(t, names)
  {
    if t.op.Arg? then l == ArgLabel(t.op.idx, names)
    else exists i :: 0 <= i < |t.kids| && Names(t.kids[i], names, l)
  }

  /** There is an input for every argument of the program. */
  predicate Supplied(t: ComboTree, n: nat) {
    (t.op.Arg? ==> t.op.idx < n) && forall i | 0 <= i < |t.kids| :: Supplied(t.kids[i], n)
  }

  /** Reading a translation meets no labels but those of its arguments. */
  lemma {:induction false} LabelsAreNames(h: Atom, t: ComboTree, p: Procedure, names: seq<string>, labels: seq<string>)
    requires GoodLabels(names) && Supported(t, names) && !p.UnknownProcedure? && RoundTrips(t, p)
    requires Grounded(h) && Represents(h, t, p, names)
    ensures Read(h, labels).Some? && forall l | l in Read(h, labels).value.1 :: l in labels || Names(t, names, l)
    decreases t, |t.kids| + 1
  {
    ReadTranslation(h, t, p, names, labels);
    if t.op.Arg? {
      ArgLabelClean(t.op.idx, names);
      NameRoundTrip(ArgLabel(t.op.idx, names));
      if t.op.negated { ReadSingle(h, labels); }
    } else if t.op.Op? {
      OperandLabels(h, t, |t.kids|, p, names, labels);
      LinkShape(h, t, p, names);
    }
  }

  lemma {:induction false} OperandLabels(h: Atom, t: ComboTree, k: nat, p: Procedure, names: seq<string>, labels: seq<string>)
    requires GoodLabels(names) && Supported(t, names) && !p.UnknownProcedure? && RoundTrips(t, p)
    requires Grounded(h) && Represents(h, t, p, names) && t.op.Op? && k <= |t.kids|
    ensures ReadOutgoing(h, k, labels).Some?
    ensures forall l | l in ReadOutgoing(h, k, labels).value.1 :: l in labels || Names(t, names, l)
    decreases t, k
  {
    ReadOperands(h, t, k, p, names, labels);
    if k > 0 {
      OperandLabels(h, t, k - 1, p, names, labels);
      LabelsAreNames(h.outgoing[k - 1], t.kids[k - 1], OperandProcedure(t.op.b), names, ReadOutgoing(h, k - 1, labels).value.1);
    }
  }

  lemma {:induction false} NamedInput(t: ComboTree, names: seq<string>, l: string, n: nat) returns (i: nat)
    requires Supported(t, names) && Names(t, names, l) && Supplied(t, n)
    ensures i < n && Labelled(i, names) && l == ArgLabel(i, names)
  {
    if t.op.Arg? {
      i := t.op.idx;
    } else {
      var k :| 0 <= k < |t.kids| && Names(t.kids[k], names, l);
      i := NamedInput(t.kids[k], names, l, n);
    }
  }

  /** Inputs with a value for every argument can be permuted for the program read back. */
  lemma {:induction false} InputsCanBePermuted(h: Atom, t: ComboTree, p: Procedure, names: seq<string>, inputs: seq<Vertex>)
    requires GoodLabels(names) && Supported(t, names) && !p.UnknownProcedure? && RoundTrips(t, p)
    requires Grounded(h) && Represents(h, t, p, names) && Supplied(t, |inputs|)
    ensures Read(h, []).Some? && exists inputs' :: Permuted(inputs, inputs', names, Read(h, []).value.1)
  {
    LabelsAreNames(h, t, p, names, []);
    var labels := Read(h, []).value.1;
    var inputs' := PermuteInputs(t, names, labels, inputs, |labels|);
    assert labels[..|labels|] == labels;
  }

  lemma {:induction false} PermuteInputs(t: ComboTree, names: seq<string>, labels: seq<string>, inputs: seq<Vertex>, n: nat)
    returns (inputs': seq<Vertex>)
    requires GoodLabels(names) && Supported(t, names) && Supplied(t, |inputs|) && n <= |labels|
    requires forall l | l in labels :: Names(t, names, l)
    ensures |inputs'| == n && Permuted(inputs, inputs', names, labels[..n])
  {
    if n == 0 {
      inputs' := [];
    } else {
      var before := PermuteInputs(t, names, labels, inputs, n - 1);
      var i := NamedInput(t, names, labels[n - 1], |inputs|);
      inputs' := before + [inputs[i]];
      forall j: nat, k | Labelled(j, names) && 0 <= k < n && labels[k] == ArgLabel(j, names)
        ensures j < |inputs| && inputs'[k] == inputs[j]
      {
        if k == n - 1 {
          ArgLabelInjective(i, j, names);
        } else {
          assert labels[..n - 1][k] == ArgLabel(j, names);
        }
      }
    }
  }

  /** Well-typed programs of the fragment make the round trip. */
  lemma {:induction false} WellTypedRoundTrips(t: ComboTree, p: Procedure, args: seq<TypeTree>, names: seq<string>)
    requires LeafTypes(args) && ColumnAgreement.Program(t, args, names)
    requires TypeOf(t, args) in {Leaf(Boolean), Leaf(Contin)}
    requires t.op.Arg? ==> ColumnAgreement.Suits(p, TypeOf(t, args))
    ensures RoundTrips(t, p)
    decreases t
  {
    if t.kids != [] {
      ColumnAgreement.OperandTypes(t, args, names);
      forall i | 0 <= i < |t.kids| ensures RoundTrips(t.kids[i], OperandProcedure(t.op.b)) {
        WellTypedRoundTrips(t.kids[i], OperandProcedure(t.op.b), args, names);
      }
    }
  }
}
