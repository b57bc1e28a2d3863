/** Translation of Combo programs to atoms. */
module ComboToAtomese {
  import opened Trees
  import opened Combo
  import opened Atoms
  import opened Labels

  datatype Procedure = UnknownProcedure | Predicate | Schema

  predicate Translatable(b: Builtin) {
    || b.True? || b.False? || b.And? || b.Or? || b.Not?
    || b.Plus? || b.Times? || b.GreaterThanZero? || b.Impulse?
  }

  function LinkKind(b: Builtin): (k: Kind)
    requires Translatable(b)
    ensures !IsVariable(k) && !k.NumberNode?
  {
    match b
    case True => TrueLink
    case False => FalseLink
    case And => AndLink
    case Or => OrLink
    case Not => NotLink
    case Plus => PlusLink
    case Times => TimesLink
    case GreaterThanZero => GreaterThanLink
    case Impulse => ImpulseLink
  }

  /** What the operands of an operator are taken for. */
  function OperandProcedure(b: Builtin): Procedure
    requires Translatable(b)
  {
    if b.Plus? || b.Times? || b.GreaterThanZero? then Schema else Predicate
  }

  /** Programs the translation supports, with a label for each argument. */
  predicate Supported(t: ComboTree, labels: seq<string>) {
    && (t.op.Op? ==> Translatable(t.op.b))
    && (t.op.Arg? ==> Labelled(t.op.idx, labels))
    && forall i | 0 <= i < |t.kids| :: Supported(t.kids[i], labels)
  }

  /** An argument that stands alone is taken for what the program is to return. */
  function Resolve(p: Procedure, contin: bool): Procedure {
    if p.UnknownProcedure? then (if contin then Schema else Predicate) else p
  }

  predicate IsVariableNamed(a: Atom, kind: Kind, text: string) {
    a.kind == kind && a.name == "$" + text && a.outgoing == []
  }

  /** The atom is a translation of the program where operands are taken for p. */
  ghost predicate Represents(a: Atom, t: ComboTree, p: Procedure, labels: seq<string>)
    requires Supported(t, labels) && !p.UnknownProcedure?
    decreases t
  {
    match t.op
    case Num(r) => a.kind == NumberNode && a.number == r && a.outgoing == []
    case Arg(i, negated) =>
      var text := ArgLabel(i, labels);
      var node := if p.Predicate? then PredicateNode else SchemaNode;
      if !negated then
        IsVariableNamed(a, node, text)
      else if p.Predicate? then
        a.kind == NotLink && |a.outgoing| == 1 && IsVariableNamed(a.outgoing[0], node, text)
      else
        && a.kind == TimesLink && |a.outgoing| == 2 && IsVariableNamed(a.outgoing[0], node, text)
        && a.outgoing[1].kind == NumberNode && a.outgoing[1].number == -1.0
    case Op(b) =>
      && a.kind == LinkKind(b)
      && |a.outgoing| == |t.kids| + (if b.GreaterThanZero? then 1 else 0)
      && (b.GreaterThanZero? ==> a.outgoing[|t.kids|].kind == NumberNode && a.outgoing[|t.kids|].number == 0.0)
      && forall i | 0 <= i < |t.kids| :: Represents(a.outgoing[i], t.kids[i], OperandProcedure(b), labels)
  }

  // ---------------------------------------------------------------- atom space

  /** Equal content: kind, name, number and the contents of the outgoing atoms. */
  ghost predicate SameContent(a: Atom, b: Atom)
    requires Grounded(a) && Grounded(b)
    decreases a.height
  {
    && a.kind == b.kind && a.name == b.name && a.number == b.number && |a.outgoing| == |b.outgoing|
    && forall i | 0 <= i < |a.outgoing| :: SameContent(a.outgoing[i], b.outgoing[i])
  }

  lemma {:induction false} SameAsItself(a: Atom)
    requires Grounded(a)
    ensures SameContent(a, a)
    decreases a.height
  {
    forall i | 0 <= i < |a.outgoing| ensures SameContent(a.outgoing[i], a.outgoing[i]) { SameAsItself(a.outgoing[i]); }
  }

  /** Two atoms with the content of a third have the same content. */
  lemma {:induction false} SameAsBoth(a: Atom, b: Atom, h: Atom)
    requires Grounded(a) && Grounded(b) && Grounded(h) && SameContent(a, h) && SameContent(b, h)
    ensures SameContent(a, b)
    decreases a.height
  {
    forall i | 0 <= i < |a.outgoing| ensures SameContent(a.outgoing[i], b.outgoing[i]) {
      SameAsBoth(a.outgoing[i], b.outgoing[i], h.outgoing[i]);
    }
  }

  /** What represents a program does so by its content. */
  lemma {:induction false} SameContentRepresents(a: Atom, b: Atom, t: ComboTree, p: Procedure, labels: seq<string>)
    requires Supported(t, labels) && !p.UnknownProcedure? && Grounded(a) && Grounded(b)
    requires SameContent(a, b) && Represents(b, t, p, labels)
    ensures Represents(a, t, p, labels)
    decreases t
  {
    match t.op
    case Op(op) =>
      forall i | 0 <= i < |t.kids| ensures Represents(a.outgoing[i], t.kids[i], OperandProcedure(op), labels) {
        SameContentRepresents(a.outgoing[i], b.outgoing[i], t.kids[i], OperandProcedure(op), labels);
      }
    case _ =>
  }

  /** All representations of a program have the same content. */
  lemma {:induction false} RepresentationsAreSame(a: Atom, b: Atom, t: ComboTree, p: Procedure, labels: seq<string>)
    requires Supported(t, labels) && !p.UnknownProcedure? && Grounded(a) && Grounded(b)
    requires Represents(a, t, p, labels) && Represents(b, t, p, labels)
    ensures SameContent(a, b)
    decreases t
  {
    match t.op
    case Op(op) =>
      forall i | 0 <= i < |t.kids| ensures SameContent(a.outgoing[i], b.outgoing[i]) {
        RepresentationsAreSame(a.outgoing[i], b.outgoing[i], t.kids[i], OperandProcedure(op), labels);
      }
    case _ =>
  }

  /** What operands are taken for matters to an argument that stands alone, and to
      nothing else. */
  lemma {:induction false} OnlyArgumentsAreResolved(a: Atom, t: ComboTree, p: Procedure, q: Procedure, labels: seq<string>)
    requires Supported(t, labels) && !p.UnknownProcedure? && !q.UnknownProcedure? && p != q
    requires Represents(a, t, p, labels)
    ensures Represents(a, t, q, labels) <==> !t.op.Arg?
  {
  }

  /** A variable like x is in the list. */
  ghost predicate Known(x: Atom, atoms: seq<Atom>) {
    exists a :: a in atoms && a.kind == x.kind && a.name == x.name && a.number == x.number && a.outgoing == []
  }

  /** An atom with the content of h is in the list. */
  ghost predicate Stored(h: Atom, atoms: seq<Atom>)
    requires Grounded(h)
  {
    exists a :: a in atoms && Grounded(a) && SameContent(a, h)
  }

  /** No two atoms in the list have the same content. */
  ghost predicate Unique(atoms: seq<Atom>) {
    forall a, b | a in atoms && b in atoms && Grounded(a) && Grounded(b) && SameContent(a, b) :: a == b
  }

  lemma {:induction false} StoredBelow(h: Atom, atoms: seq<Atom>, i: nat)
    requires Closed(set a | a in atoms) && Grounded(h) && Stored(h, atoms) && i < |h.outgoing|
    ensures Stored(h.outgoing[i], atoms)
  {
    var S := set a | a in atoms;
    var a :| a in atoms && Grounded(a) && SameContent(a, h);
    assert a in S;
    assert a.outgoing[i] in S && SameContent(a.outgoing[i], h.outgoing[i]);
  }

  /** Where the atoms are unique, one with the content of h goes out to the atoms
      that have the contents of those h goes out to. */
  lemma {:induction false} StoredOver(a: Atom, h: Atom, outgoing: seq<Atom>, atoms: seq<Atom>)
    requires Closed(set x | x in atoms) && Unique(atoms) && a in atoms && Grounded(a) && Grounded(h) && SameContent(a, h)
    requires |outgoing| == |h.outgoing| && forall o | o in outgoing :: o in atoms
    requires forall k | 0 <= k < |outgoing| :: Grounded(outgoing[k]) && SameContent(outgoing[k], h.outgoing[k])
    ensures Matches(a, h, outgoing)
  {
    var S := set x | x in atoms;
    assert a in S;
    forall k | 0 <= k < |outgoing| ensures a.outgoing[k] == outgoing[k] {
      assert a.outgoing[k] in S && outgoing[k] in outgoing;
      SameAsBoth(a.outgoing[k], outgoing[k], h.outgoing[k]);
    }
  }

  /** A store that keeps one atom for each content. */
  class AtomSpace {
    var atoms: seq<Atom>

    ghost function Contents(): set<Atom>
      reads this
    {
      set a | a in atoms
    }

    ghost predicate Valid()
      reads this
    {
      Closed(Contents()) && Unique(atoms)
    }

    constructor ()
      ensures atoms == [] && Valid()
    {
      atoms := [];
    }

    /** The atom of this content: the one already present, or h over outgoing atoms
        that are.  The set B holds h and everything below it. */
    method AddAtom(h: Atom, ghost B: set<Atom>) returns (r: Atom)
      requires Valid() && Closed(B) && h in B
      modifies this
      ensures Valid() && Grounded(r) && SameContent(r, h) && r in atoms && old(atoms) <= atoms
      ensures Stored(h, old(atoms)) ==> r in old(atoms) && atoms == old(atoms)
      ensures forall x | x in old(atoms) && Grounded(x) && SameContent(x, h) :: r == x
      ensures forall x | x in atoms && x !in old(atoms) :: x in B || (fresh(x) && x.values == map[])
      ensures forall x | x in atoms && x !in old(atoms) && IsVariable(x.kind) :: x in B && !Known(x, old(atoms))
      decreases h.height
    {
      var outgoing := AddOutgoing(h, B);
      ghost var before := atoms;
      r := AddOver(h, outgoing, B);
      KnownMore(old(atoms), before);
      forall x | x in old(atoms) && Grounded(x) && SameContent(x, h) ensures r == x {
        SameAsBoth(r, x, h);
      }
    }

    method AddOutgoing(h: Atom, ghost B: set<Atom>) returns (outgoing: seq<Atom>)
      requires Valid() && Closed(B) && h in B
      modifies this
      ensures Valid() && old(atoms) <= atoms && |outgoing| == |h.outgoing|
      ensures forall o | o in outgoing :: o in atoms
      ensures forall k | 0 <= k < |outgoing| :: Grounded(outgoing[k]) && SameContent(outgoing[k], h.outgoing[k])
      ensures Stored(h, old(atoms)) ==> atoms == old(atoms)
      ensures forall x | x in atoms && x !in old(atoms) :: x in B || (fresh(x) && x.values == map[])
      ensures forall x | x in atoms && x !in old(atoms) && IsVariable(x.kind) :: x in B && !Known(x, old(atoms))
      decreases h.height, 0
    {
      outgoing := [];
      for i := 0 to |h.outgoing|
        invariant |outgoing| == i && Valid() && old(atoms) <= atoms
        invariant forall o | o in outgoing :: o in atoms
        invariant forall k | 0 <= k < i :: Grounded(outgoing[k]) && SameContent(outgoing[k], h.outgoing[k])
        invariant Stored(h, old(atoms)) ==> atoms == old(atoms)
        invariant forall x | x in atoms && x !in old(atoms) :: x in B || (fresh(x) && x.values == map[])
        invariant forall x | x in atoms && x !in old(atoms) && IsVariable(x.kind) :: x in B && !Known(x, old(atoms))
      {
        ghost var before := atoms;
        if Stored(h, old(atoms)) { StoredBelow(h, old(atoms), i); }
        var o := AddAtom(h.outgoing[i], B);
        outgoing := outgoing + [o];
        KnownMore(old(atoms), before);
      }
    }

  /** The atom like h over atoms that are present. */
    method AddOver(h: Atom, outgoing: seq<Atom>, ghost B: set<Atom>) returns (r: Atom)
      requires Valid() && Grounded(h) && h in B
      requires |outgoing| == |h.outgoing| && forall o | o in outgoing :: o in atoms
      requires forall k | 0 <= k < |outgoing| :: Grounded(outgoing[k]) && SameContent(outgoing[k], h.outgoing[k])
      modifies this
      ensures Valid() && Grounded(r) && SameContent(r, h) && r in atoms
      ensures atoms == old(atoms) || atoms == old(atoms) + [r]
      ensures Stored(h, old(atoms)) ==> atoms == old(atoms)
      ensures r !in old(atoms) ==> r in B || (fresh(r) && r.values == map[])
      ensures r !in old(atoms) && IsVariable(r.kind) ==> r in B && !Known(r, old(atoms))
    {
      assert forall k | 0 <= k < |outgoing| :: outgoing[k] in outgoing;
      for i := 0 to |atoms|
        invariant forall k | 0 <= k < i :: !Matches(atoms[k], h, outgoing)
      {
        var a := atoms[i];
        if a.kind == h.kind && a.name == h.name && a.number == h.number && a.outgoing == outgoing {
          return a;
        }
      }
      if outgoing == h.outgoing {
        r := h;
      } else {
        r := new Atom.Like(h, outgoing);
      }
      NoneLike(h, r, outgoing);
      atoms := atoms + [r];
    }

    /** An atom over present atoms that none matches differs from all. */
    lemma {:induction false} NoneLike(h: Atom, r: Atom, outgoing: seq<Atom>)
      requires Valid() && Grounded(h) && Grounded(r) && SameContent(r, h)
      requires |outgoing| == |h.outgoing| && forall o | o in outgoing :: o in atoms
      requires forall k | 0 <= k < |outgoing| :: Grounded(outgoing[k]) && SameContent(outgoing[k], h.outgoing[k])
      requires forall k | 0 <= k < |atoms| :: !Matches(atoms[k], h, outgoing)
      ensures !Stored(h, atoms) && Unique(atoms + [r])
    {
      forall a | a in atoms && Grounded(a) ensures !SameContent(a, h) {
        if SameContent(a, h) { StoredOver(a, h, outgoing, atoms); }
      }
      forall a | a in atoms && Grounded(a) ensures !SameContent(a, r) && !SameContent(r, a) {
        if SameContent(a, r) { SameThrough(a, r, h); }
        if SameContent(r, a) { SameBack(r, a); SameThrough(a, r, h); }
      }
    }
  }

  lemma {:induction false} SameBack(a: Atom, b: Atom)
    requires Grounded(a) && Grounded(b) && SameContent(a, b)
    ensures SameContent(b, a)
  {
    SameAsItself(b);
    SameAsBoth(b, a, b);
  }

  lemma {:induction false} SameThrough(a: Atom, b: Atom, c: Atom)
    requires Grounded(a) && Grounded(b) && Grounded(c) && SameContent(a, b) && SameContent(b, c)
    ensures SameContent(a, c)
  {
    SameBack(b, c);
    SameAsBoth(a, c, b);
  }

  ghost predicate Matches(a: Atom, h: Atom, outgoing: seq<Atom>) {
    a.kind == h.kind && a.name == h.name && a.number == h.number && a.outgoing == outgoing
  }

  lemma {:induction false} KnownMore(before: seq<Atom>, after: seq<Atom>)
    requires before <= after
    ensures forall x | Known(x, before) :: Known(x, after)
  {
  }

  // ---------------------------------------------------------------- translation

  function NodeKind(p: Procedure): Kind { if p.Predicate? then PredicateNode else SchemaNode }

  /** An argument of the program becomes a variable of this kind and name. */
  predicate Mentions(t: ComboTree, p: Procedure, labels: seq<string>, kind: Kind, name: string)
    requires Supported(t, labels) && !p.UnknownProcedure?
    decreases t
  {
    match t.op
    case Num(_) => false
    case Arg(i, _) => kind == NodeKind(p) && name == "$" + ArgLabel(i, labels)
    case Op(b) => MentionedBefore(t, |t.kids|, labels, kind, name)
  }

  /** One of the first k operands mentions the variable. */
  predicate MentionedBefore(t: ComboTree, k: nat, labels: seq<string>, kind: Kind, name: string)
    requires Supported(t, labels) && t.op.Op? && k <= |t.kids|
    decreases t, 0
  {
    exists i :: 0 <= i < k && Mentions(t.kids[i], OperandProcedure(t.op.b), labels, kind, name)
  }

  /** From one list of atoms to the other only blank atoms have joined, and the
      variables among them satisfy the predicate and were unknown. */
  ghost predicate GrownBy(before: seq<Atom>, after: seq<Atom>, mentioned: (Kind, string) -> bool)
    reads set a | a in after
  {
    && before <= after
    && forall x | x in after && x !in before ::
      && x.values == map[]
      && (IsVariable(x.kind) ==> x.number == 0.0 && !Known(x, before) && mentioned(x.kind, x.name))
  }

  lemma {:induction false} GrownByMore(s0: seq<Atom>, s1: seq<Atom>, s2: seq<Atom>,
                                       some: (Kind, string) -> bool, more: (Kind, string) -> bool, all: (Kind, string) -> bool)
    requires GrownBy(s0, s1, some) && GrownBy(s1, s2, more)
    requires forall k, n :: (some(k, n) || more(k, n)) ==> all(k, n)
    ensures GrownBy(s0, s2, all)
  {
    KnownMore(s0, s1);
  }

  class Translator {
    const space: AtomSpace?
    const contin: bool  // whether the program is to return a contin
    const labels: seq<string>

    /** Without a space, and without saying what the program is to return. */
    constructor (labels: seq<string>)
      ensures space == null && this.labels == labels
    {
      var any: bool := *;
      space, contin, this.labels := null, any, labels;
    }

    /** Adds arguments to a space, without saying what the program is to return. */
    constructor InSpace(space: AtomSpace?, labels: seq<string>)
      ensures this.space == space && this.labels == labels
    {
      var any: bool := *;
      this.space, contin, this.labels := space, any, labels;
    }

    /** Without a space, for a program that is to return a contin or not. */
    constructor Returning(contin: bool, labels: seq<string>)
      ensures space == null && this.contin == contin && this.labels == labels
    {
      space, this.contin, this.labels := null, contin, labels;
    }

    ghost predicate Valid()
      reads this, space
    {
      space != null ==> space.Valid()
    }

    ghost function Present(): seq<Atom>
      reads this, space
    {
      if space == null then [] else space.atoms
    }

    /** The atoms made outside the space and those in it. */
    ghost function Around(made: set<Atom>): set<Atom>
      reads this, space
    {
      made + set x | x in Present()
    }

    /** What is made outside the space is blank and stands on itself and the space;
        its variables satisfy the predicate, and there are none if there is a space. */
    ghost predicate Made(made: set<Atom>, mentioned: (Kind, string) -> bool)
      reads this, space, made
    {
      && Closed(Around(made))
      && forall x | x in made :: x.values == map[] && (IsVariable(x.kind) ==> space == null && mentioned(x.kind, x.name))
    }

    /** Translates a program; children of arguments and numbers are not visited. */
    method Translate(t: ComboTree, parent: Procedure) returns (a: Atom, ghost made: set<Atom>)
      requires Valid() && Supported(t, labels)
      modifies space
      ensures Valid() && Grounded(a) && Represents(a, t, Resolve(parent, contin), labels)
      ensures Made(made, (k, n) => Mentions(t, Resolve(parent, contin), labels, k, n)) && a in Around(made)
      ensures fresh(made) && fresh(set x | x in Present() && x !in old(Present()))
      ensures GrownBy(old(Present()), Present(), (k, n) => Mentions(t, Resolve(parent, contin), labels, k, n))
      decreases t
    {
      if t.op.Num? {
        a := new Atom.Number(t.op.r);
        made := {a};
      } else if t.op.Arg? {
        a, made := TranslateArgument(t.op.idx, t.op.negated, Resolve(parent, contin));
      } else {
        var outgoing: seq<Atom>;
        outgoing, made := TranslateOperands(t);
        a := new Atom.Link(LinkKind(t.op.b), outgoing);
        made := made + {a};
      }
    }

    /** The first i operands are translated; `start` is what was present before. */
    ghost predicate Operands(t: ComboTree, i: nat, outgoing: seq<Atom>, made: set<Atom>, start: seq<Atom>)
      requires Supported(t, labels) && t.op.Op?
      reads this, space, made, set x | x in Present()
    {
      && Valid() && i == |outgoing| <= |t.kids| && Made(made, (k, n) => MentionedBefore(t, i, labels, k, n))
      && (forall k | 0 <= k < i ::
            && Grounded(outgoing[k]) && outgoing[k] in Around(made)
            && Represents(outgoing[k], t.kids[k], OperandProcedure(t.op.b), labels))
      && GrownBy(start, Present(), (k, n) => MentionedBefore(t, i, labels, k, n))
    }

    /** The translated operands of an operator, and the zero of a comparison. */
    method TranslateOperands(t: ComboTree) returns (outgoing: seq<Atom>, ghost made: set<Atom>)
      requires Valid() && Supported(t, labels) && t.op.Op?
      modifies space
      ensures Valid() && Made(made, (k, n) => MentionedBefore(t, |t.kids|, labels, k, n))
      ensures |outgoing| == |t.kids| + if t.op.b.GreaterThanZero? then 1 else 0
      ensures forall o | o in outgoing :: Grounded(o) && o in Around(made)
      ensures forall k | 0 <= k < |t.kids| :: Represents(outgoing[k], t.kids[k], OperandProcedure(t.op.b), labels)
      ensures t.op.b.GreaterThanZero? ==> outgoing[|t.kids|].kind == NumberNode && outgoing[|t.kids|].number == 0.0
      ensures fresh(made) && fresh(set x | x in Present() && x !in old(Present()))
      ensures GrownBy(old(Present()), Present(), (k, n) => MentionedBefore(t, |t.kids|, labels, k, n))
      decreases t, 0
    {
      outgoing, made := TranslateKids(t);
      if t.op.b.GreaterThanZero? {
        var zero := new Atom.Number(0.0);
        outgoing, made := outgoing + [zero], made + {zero};
      }
    }

    method TranslateKids(t: ComboTree) returns (outgoing: seq<Atom>, ghost made: set<Atom>)
      requires Valid() && Supported(t, labels) && t.op.Op?
      modifies space
      ensures Operands(t, |t.kids|, outgoing, made, old(Present()))
      ensures fresh(made) && fresh(set x | x in Present() && x !in old(Present()))
      decreases t, 0, 1
    {
      outgoing, made := [], {};
      for i := 0 to |t.kids|
        invariant Operands(t, i, outgoing, made, old(Present()))
        invariant fresh(made) && fresh(set x | x in Present() && x !in old(Present()))
      {
        outgoing, made := TranslateOperand(t, i, outgoing, made, old(Present()));
      }
    }

    method TranslateOperand(t: ComboTree, i: nat, before: seq<Atom>, ghost was: set<Atom>, ghost start: seq<Atom>)
      returns (outgoing: seq<Atom>, ghost made: set<Atom>)
      requires Supported(t, labels) && t.op.Op? && i < |t.kids| && Operands(t, i, before, was, start)
      modifies space
      ensures Operands(t, i + 1, outgoing, made, start) && was <= made
      ensures fresh(made - was) && fresh(set x | x in Present() && x !in old(Present())) && old(Present()) <= Present()
      decreases t, 0, 0
    {
      ghost var around := Around(was);
      var operands := OperandProcedure(t.op.b);
      var o: Atom;
      o, made := Translate(t.kids[i], operands);
      OneMoreMade(t, i, was, made, around);
      OneMoreOperand(t, i, start, old(Present()), Present());
      outgoing, made := before + [o], was + made;
    }

    lemma {:induction false} OneMoreMade(t: ComboTree, i: nat, was: set<Atom>, made: set<Atom>, around: set<Atom>)
      requires Supported(t, labels) && t.op.Op? && i < |t.kids|
      requires Closed(around) && was <= around <= Around(was)
      requires forall x | x in was ::
                 x.values == map[] && (IsVariable(x.kind) ==> space == null && MentionedBefore(t, i, labels, x.kind, x.name))
      requires Made(made, (k, n) => Mentions(t.kids[i], OperandProcedure(t.op.b), labels, k, n))
      ensures Made(was + made, (k, n) => MentionedBefore(t, i + 1, labels, k, n))
    {
      assert Around(was + made) == around + Around(made);
    }

    lemma {:induction false} OneMoreOperand(t: ComboTree, i: nat, s0: seq<Atom>, s1: seq<Atom>, s2: seq<Atom>)
      requires Supported(t, labels) && t.op.Op? && i < |t.kids|
      requires GrownBy(s0, s1, (k, n) => MentionedBefore(t, i, labels, k, n))
      requires GrownBy(s1, s2, (k, n) => Mentions(t.kids[i], OperandProcedure(t.op.b), labels, k, n))
      ensures GrownBy(s0, s2, (k, n) => MentionedBefore(t, i + 1, labels, k, n))
    {
      GrownByMore(s0, s1, s2, (k, n) => MentionedBefore(t, i, labels, k, n),
                  (k, n) => Mentions(t.kids[i], OperandProcedure(t.op.b), labels, k, n),
                  (k, n) => MentionedBefore(t, i + 1, labels, k, n));
    }

    method TranslateArgument(i: nat, negated: bool, p: Procedure) returns (a: Atom, ghost made: set<Atom>)
      requires Valid() && Labelled(i, labels) && !p.UnknownProcedure?
      modifies space
      ensures Valid() && Grounded(a) && Represents(a, Node(Arg(i, negated), []), p, labels)
      ensures Made(made, (k, n) => k == NodeKind(p) && n == "$" + ArgLabel(i, labels)) && a in Around(made)
      ensures fresh(made) && fresh(set x | x in Present() && x !in old(Present()))
      ensures GrownBy(old(Present()), Present(), (k, n) => k == NodeKind(p) && n == "$" + ArgLabel(i, labels))
    {
      if space == null {
        a, made := ArgumentAtom(i, negated, p);
      } else {
        a := ArgumentInSpace(i, negated, p);
        made := {};
      }
    }

    /** A new atom for an argument, added to the space. */
    method ArgumentInSpace(i: nat, negated: bool, p: Procedure) returns (a: Atom)
      requires space != null && space.Valid() && Labelled(i, labels) && !p.UnknownProcedure?
      modifies space
      ensures Valid() && Grounded(a) && Represents(a, Node(Arg(i, negated), []), p, labels)
      ensures a in Present() && fresh(set x | x in Present() && x !in old(Present()))
      ensures GrownBy(old(Present()), Present(), (k, n) => k == NodeKind(p) && n == "$" + ArgLabel(i, labels))
    {
      var h, made := ArgumentAtom(i, negated, p);
      a := AddToSpace(h, i, p, made);
    }

    /** A new atom for an argument. */
    method ArgumentAtom(i: nat, negated: bool, p: Procedure) returns (h: Atom, ghost made: set<Atom>)
      requires Labelled(i, labels) && !p.UnknownProcedure?
      ensures fresh(made) && Closed(made) && h in made && ForArgument(made, i, p)
      ensures Grounded(h) && Represents(h, Node(Arg(i, negated), []), p, labels)
    {
      var name := "$" + ArgLabel(i, labels);
      h := new Atom.Node(if p.Predicate? then PredicateNode else SchemaNode, name);
      made := {h};
      if negated && p.Predicate? {
        h := new Atom.Link(NotLink, [h]);
        made := made + {h};
      } else if negated {
        var minusOne := new Atom.Number(-1.0);
        h := new Atom.Link(TimesLink, [h, minusOne]);
        made := made + {minusOne, h};
      }
    }

    /** Blank atoms, the variables among them standing for argument i. */
    ghost predicate ForArgument(made: set<Atom>, i: nat, p: Procedure)
      requires Labelled(i, labels)
      reads made
    {
      forall x | x in made ::
        && x.values == map[]
        && (IsVariable(x.kind) ==>
              x.outgoing == [] && x.number == 0.0 && x.kind == NodeKind(p) && x.name == "$" + ArgLabel(i, labels))
    }

    method AddToSpace(h: Atom, i: nat, p: Procedure, ghost made: set<Atom>) returns (a: Atom)
      requires space != null && space.Valid() && Labelled(i, labels) && !p.UnknownProcedure?
      requires Closed(made) && h in made && ForArgument(made, i, p)
      modifies space
      ensures Valid() && Grounded(a) && SameContent(a, h) && a in Present()
      ensures GrownBy(old(Present()), Present(), (k, n) => k == NodeKind(p) && n == "$" + ArgLabel(i, labels))
      ensures forall x | x in Present() && x !in old(Present()) :: x in made || fresh(x)
    {
      a := space.AddAtom(h, made);
    }
  }
}
