/** Atoms: immutable nodes and links that may be shared, each with a store of
    values under keys, and what an atom means on one row of a table. */
module Atoms {
  datatype Kind =
    | PredicateNode | SchemaNode | NumberNode
    | TrueLink | FalseLink
    | AndLink | OrLink | NotLink
    | PlusLink | TimesLink
    | ImpulseLink | GreaterThanLink

  predicate IsVariable(k: Kind) { k.PredicateNode? || k.SchemaNode? }

  predicate IsConstant(k: Kind) { k.NumberNode? || k.TrueLink? || k.FalseLink? }

  /** A value: one truth value (true or false link) or one number for each row. */
  datatype Column = Links(bs: seq<bool>) | Floats(xs: seq<real>)

  function Length(c: Column): nat {
    match c
    case Links(bs) => |bs|
    case Floats(xs) => |xs|
  }

  type Key = string

  class Atom {
    const kind: Kind
    const name: string
    const number: real
    const outgoing: seq<Atom>
    ghost const height: nat
    var values: map<Key, Column>

    constructor Node(kind: Kind, name: string)
      requires IsVariable(kind)
      ensures this.kind == kind && this.name == name && number == 0.0 && outgoing == [] && values == map[]
      ensures Grounded(this)
    {
      this.kind, this.name, number, outgoing, values := kind, name, 0.0, [], map[];
      height := 0;
    }

    constructor Number(number: real)
      ensures kind == NumberNode && this.number == number && outgoing == [] && values == map[]
      ensures Grounded(this)
    {
      kind, name, this.number, outgoing, values := NumberNode, "", number, [], map[];
      height := 0;
    }

    constructor Link(kind: Kind, outgoing: seq<Atom>)
      requires !IsVariable(kind) && !kind.NumberNode?
      requires forall i | 0 <= i < |outgoing| :: Grounded(outgoing[i])
      ensures this.kind == kind && this.outgoing == outgoing && values == map[]
      ensures Grounded(this)
    {
      this.kind, name, number, this.outgoing, values := kind, "", 0.0, outgoing, map[];
      height := Above(outgoing);
    }

    /** An atom like h over other outgoing atoms. */
    constructor Like(h: Atom, outgoing: seq<Atom>)
      requires Plain(h) && |outgoing| == |h.outgoing| && forall i | 0 <= i < |outgoing| :: Grounded(outgoing[i])
      ensures kind == h.kind && name == h.name && number == h.number && this.outgoing == outgoing && values == map[]
      ensures Grounded(this)
    {
      kind, name, number, this.outgoing, values := h.kind, h.name, h.number, outgoing, map[];
      height := Above(outgoing);
    }
  }

  /** A height above those of all atoms in the list. */
  ghost function Above(atoms: seq<Atom>): (h: nat)
    ensures forall i | 0 <= i < |atoms| :: atoms[i].height < h
  {
    if atoms == [] then 0
    else
      var h := Above(atoms[1..]);
      if atoms[0].height < h then h else atoms[0].height + 1
  }

  /** Nodes have a name or a number and go out to nothing, links have neither. */
  predicate Plain(a: Atom) {
    && (!a.kind.NumberNode? ==> a.number == 0.0)
    && (!IsVariable(a.kind) ==> a.name == "")
    && (IsVariable(a.kind) || a.kind.NumberNode? ==> a.outgoing == [])
  }

  /** Links are made after the atoms they go out to, so no chain of links returns. */
  ghost predicate Grounded(a: Atom)
    decreases a.height
  {
    && Plain(a)
    && forall i | 0 <= i < |a.outgoing| :: a.outgoing[i].height < a.height && Grounded(a.outgoing[i])
  }

  ghost predicate GroundedAll(atoms: seq<Atom>) {
    forall i | 0 <= i < |atoms| :: Grounded(atoms[i])
  }

  /** A set of atoms that contains everything its members go out to. */
  ghost predicate Closed(S: set<Atom>) {
    forall a | a in S :: Grounded(a) && forall i | 0 <= i < |a.outgoing| :: a.outgoing[i] in S
  }

  // ---------------------------------------------------------------- typing

  /** Columns of the variables of a table with n rows. */
  type Table = map<Atom, Column>

  ghost predicate BoolAtom(a: Atom, table: Table, n: nat)
    requires Grounded(a)
    decreases a.height
  {
    match a.kind
    case PredicateNode => a in table && table[a].Links? && |table[a].bs| == n
    case SchemaNode => a in table && table[a].Links? && |table[a].bs| == n
    case TrueLink => true
    case FalseLink => true
    case AndLink => a.outgoing != [] && forall i | 0 <= i < |a.outgoing| :: BoolAtom(a.outgoing[i], table, n)
    case OrLink => a.outgoing != [] && forall i | 0 <= i < |a.outgoing| :: BoolAtom(a.outgoing[i], table, n)
    case NotLink => |a.outgoing| == 1 && BoolAtom(a.outgoing[0], table, n)
    case GreaterThanLink => |a.outgoing| == 2 && FloatAtom(a.outgoing[0], table, n) && FloatAtom(a.outgoing[1], table, n)
    case _ => false
  }

  ghost predicate FloatAtom(a: Atom, table: Table, n: nat)
    requires Grounded(a)
    decreases a.height
  {
    match a.kind
    case PredicateNode => a in table && table[a].Floats? && |table[a].xs| == n
    case SchemaNode => a in table && table[a].Floats? && |table[a].xs| == n
    case NumberNode => true
    case PlusLink => a.outgoing != [] && forall i | 0 <= i < |a.outgoing| :: FloatAtom(a.outgoing[i], table, n)
    case TimesLink => a.outgoing != [] && forall i | 0 <= i < |a.outgoing| :: FloatAtom(a.outgoing[i], table, n)
    case ImpulseLink => |a.outgoing| == 1 && BoolAtom(a.outgoing[0], table, n)
    case _ => false
  }

  ghost predicate BoolAtoms(atoms: seq<Atom>, table: Table, n: nat) {
    forall i | 0 <= i < |atoms| :: Grounded(atoms[i]) && BoolAtom(atoms[i], table, n)
  }

  ghost predicate FloatAtoms(atoms: seq<Atom>, table: Table, n: nat) {
    forall i | 0 <= i < |atoms| :: Grounded(atoms[i]) && FloatAtom(atoms[i], table, n)
  }

  ghost predicate TypedAtom(a: Atom, table: Table, n: nat)
    requires Grounded(a)
  {
    BoolAtom(a, table, n) || FloatAtom(a, table, n)
  }

  // ---------------------------------------------------------------- meaning on one row

  ghost function BoolAt(a: Atom, table: Table, n: nat, r: nat): bool
    requires Grounded(a) && BoolAtom(a, table, n) && r < n
    decreases a.height, |a.outgoing| + 1
  {
    match a.kind
    case TrueLink => true
    case FalseLink => false
    case AndLink => AllAt(a, |a.outgoing|, table, n, r)
    case OrLink => AnyAt(a, |a.outgoing|, table, n, r)
    case NotLink => !BoolAt(a.outgoing[0], table, n, r)
    case GreaterThanLink => FloatAt(a.outgoing[0], table, n, r) > FloatAt(a.outgoing[1], table, n, r)
    case _ => table[a].bs[r]
  }

  /** The first k outgoing atoms are all true on row r. */
  ghost function AllAt(a: Atom, k: nat, table: Table, n: nat, r: nat): bool
    requires Grounded(a) && BoolAtoms(a.outgoing, table, n) && r < n && k <= |a.outgoing|
    decreases a.height, k
  {
    k == 0 || (AllAt(a, k - 1, table, n, r) && BoolAt(a.outgoing[k - 1], table, n, r))
  }

  ghost function AnyAt(a: Atom, k: nat, table: Table, n: nat, r: nat): bool
    requires Grounded(a) && BoolAtoms(a.outgoing, table, n) && r < n && k <= |a.outgoing|
    decreases a.height, k
  {
    k > 0 && (AnyAt(a, k - 1, table, n, r) || BoolAt(a.outgoing[k - 1], table, n, r))
  }

  ghost function FloatAt(a: Atom, table: Table, n: nat, r: nat): real
    requires Grounded(a) && FloatAtom(a, table, n) && r < n
    decreases a.height, |a.outgoing| + 1
  {
    match a.kind
    case NumberNode => a.number
    case PlusLink => SumAt(a, |a.outgoing|, table, n, r)
    case TimesLink => ProductAt(a, |a.outgoing|, table, n, r)
    case ImpulseLink => if BoolAt(a.outgoing[0], table, n, r) then 1.0 else 0.0
    case _ => table[a].xs[r]
  }

  ghost function SumAt(a: Atom, k: nat, table: Table, n: nat, r: nat): real
    requires Grounded(a) && FloatAtoms(a.outgoing, table, n) && r < n && k <= |a.outgoing|
    decreases a.height, k
  {
    if k == 0 then 0.0 else SumAt(a, k - 1, table, n, r) + FloatAt(a.outgoing[k - 1], table, n, r)
  }

  ghost function ProductAt(a: Atom, k: nat, table: Table, n: nat, r: nat): real
    requires Grounded(a) && FloatAtoms(a.outgoing, table, n) && r < n && k <= |a.outgoing|
    decreases a.height, k
  {
    if k == 0 then 1.0 else ProductAt(a, k - 1, table, n, r) * FloatAt(a.outgoing[k - 1], table, n, r)
  }

  /** The column c gives the meaning of a on every row. */
  ghost predicate Means(c: Column, a: Atom, table: Table, n: nat)
    requires Grounded(a)
  {
    && TypedAtom(a, table, n)
    && (BoolAtom(a, table, n) ==> c.Links? && |c.bs| == n && forall r | 0 <= r < n :: c.bs[r] == BoolAt(a, table, n, r))
    && (FloatAtom(a, table, n) ==> c.Floats? && |c.xs| == n && forall r | 0 <= r < n :: c.xs[r] == FloatAt(a, table, n, r))
  }
}
