/** The vectorised interpreter: evaluates a program over all rows of a table at
    once and stores the result of every link on the link itself. */
module ColumnInterpreter {
  import opened Atoms
  import opened LogicalInterpreter

  // ---------------------------------------------------------------- rows of several columns

  ghost predicate BoolColumns(ps: seq<Column>, n: nat) {
    forall i | 0 <= i < |ps| :: ps[i].Links? && |ps[i].bs| == n
  }

  ghost predicate FloatColumns(ps: seq<Column>, n: nat) {
    forall i | 0 <= i < |ps| :: ps[i].Floats? && |ps[i].xs| == n
  }

  ghost function AllTrue(ps: seq<Column>, k: nat, n: nat, r: nat): bool
    requires BoolColumns(ps, n) && r < n && k <= |ps|
  {
    k == 0 || (AllTrue(ps, k - 1, n, r) && ps[k - 1].bs[r])
  }

  ghost function AnyTrue(ps: seq<Column>, k: nat, n: nat, r: nat): bool
    requires BoolColumns(ps, n) && r < n && k <= |ps|
  {
    k > 0 && (AnyTrue(ps, k - 1, n, r) || ps[k - 1].bs[r])
  }

  ghost function SumOf(ps: seq<Column>, k: nat, n: nat, r: nat): real
    requires FloatColumns(ps, n) && r < n && k <= |ps|
  {
    if k == 0 then 0.0 else SumOf(ps, k - 1, n, r) + ps[k - 1].xs[r]
  }

  ghost function ProductOf(ps: seq<Column>, k: nat, n: nat, r: nat): real
    requires FloatColumns(ps, n) && r < n && k <= |ps|
  {
    if k == 0 then 1.0 else ProductOf(ps, k - 1, n, r) * ps[k - 1].xs[r]
  }

  function Repeat<T>(x: T, n: nat): (s: seq<T>)
    ensures |s| == n && forall i | 0 <= i < n :: s[i] == x
  {
    seq(n, _ => x)
  }

  // ---------------------------------------------------------------- the store

  /** Every value stored under the key on an atom of S is what the atom means, and
      the variables hold their columns. */
  ghost predicate Memo(S: set<Atom>, key: Key, table: Table, n: nat)
    requires Closed(S)
    reads S
  {
    && (forall a | a in S && key in a.values :: Means(a.values[key], a, table, n))
    && (forall a | a in S && IsVariable(a.kind) :: key in a.values)
  }

  /** The atom or something below it has a value under the key. */
  ghost predicate HasColumn(a: Atom, key: Key, S: set<Atom>)
    requires Closed(S) && a in S
    reads S
    decreases a.height
  {
    key in a.values || exists i :: 0 <= i < |a.outgoing| && HasColumn(a.outgoing[i], key, S)
  }

  /** What execution needs of its parameters, by the type of the link. */
  ghost predicate Executable(kind: Kind, ps: seq<Column>, n: nat) {
    match kind
    case AndLink => BoolColumns(ps, n)
    case OrLink => BoolColumns(ps, n)
    case NotLink => |ps| == 1 && BoolColumns(ps, n)
    case PlusLink => FloatColumns(ps, n)
    case TimesLink => ps != [] && FloatColumns(ps, n)
    case ImpulseLink => |ps| == 1 && BoolColumns(ps, n)
    case GreaterThanLink => |ps| == 2 && FloatColumns(ps, n)
    case _ => false
  }

  ghost predicate BoolResult(c: Column, n: nat) { c.Links? && |c.bs| == n }

  ghost predicate FloatResult(c: Column, n: nat) { c.Floats? && |c.xs| == n }

  /** What execution computes, row by row. */
  ghost predicate Executed(kind: Kind, ps: seq<Column>, c: Column, n: nat)
    requires Executable(kind, ps, n)
  {
    match kind
    case AndLink => BoolResult(c, n) && forall r | 0 <= r < n :: c.bs[r] == AllTrue(ps, |ps|, n, r)
    case OrLink => BoolResult(c, n) && forall r | 0 <= r < n :: c.bs[r] == AnyTrue(ps, |ps|, n, r)
    case NotLink => BoolResult(c, n) && forall r | 0 <= r < n :: c.bs[r] == !ps[0].bs[r]
    case PlusLink => FloatResult(c, n) && forall r | 0 <= r < n :: c.xs[r] == SumOf(ps, |ps|, n, r)
    case TimesLink => FloatResult(c, n) && forall r | 0 <= r < n :: c.xs[r] == ProductOf(ps, |ps|, n, r)
    case ImpulseLink => FloatResult(c, n) && forall r | 0 <= r < n :: c.xs[r] == if ps[0].bs[r] then 1.0 else 0.0
    case GreaterThanLink => BoolResult(c, n) && forall r | 0 <= r < n :: c.bs[r] == (ps[0].xs[r] > ps[1].xs[r])
    case _ => false
  }

  /** The stores of all atoms of S. */
  ghost function Stores(S: set<Atom>): map<Atom, map<Key, Column>>
    reads S
  {
    map a | a in S :: a.values
  }

  /** Values were only added, and only under the key. */
  ghost predicate Grown(before: map<Atom, map<Key, Column>>, after: map<Atom, map<Key, Column>>, key: Key) {
    && before.Keys == after.Keys
    && forall a | a in before :: GrownAt(before[a], after[a], key)
  }

  ghost predicate GrownAt(before: map<Key, Column>, after: map<Key, Column>, key: Key) {
    && before.Keys <= after.Keys <= before.Keys + {key}
    && forall k | k in before :: after[k] == before[k]
  }

  lemma {:induction false} GrownTwice(s0: map<Atom, map<Key, Column>>, s1: map<Atom, map<Key, Column>>, s2: map<Atom, map<Key, Column>>, key: Key)
    requires Grown(s0, s1, key) && Grown(s1, s2, key)
    ensures Grown(s0, s2, key)
  {
    forall a | a in s0 ensures GrownAt(s0[a], s2[a], key) {
      assert GrownAt(s0[a], s1[a], key) && GrownAt(s1[a], s2[a], key);
    }
  }

  class Interpreter {
    const key: Key
    var size: nat  // 0 while the number of rows is not known

    constructor (key: Key, size: nat)
      ensures this.key == key && this.size == size
    {
      this.key, this.size := key, size;
    }

    /** Value of a program over all rows.  Every stored value stays what it was, and
        nothing is stored under other keys. */
    method Run(program: Atom, ghost S: set<Atom>, ghost table: Table, ghost n: nat) returns (result: Column)
      requires n > 0 && Closed(S) && program in S && Memo(S, key, table, n)
      requires TypedAtom(program, table, n)
      requires size == n || (size == 0 && (n == 1 || HasColumn(program, key, S)))
      modifies this`size, S`values
      ensures size == n || (size == old(size) && old(key in program.values))
      ensures Memo(S, key, table, n)
      ensures Means(result, program, table, n)
      ensures Grown(old(Stores(S)), Stores(S), key)
      ensures old(key in program.values) || IsConstant(program.kind) ==> Stores(S) == old(Stores(S))
      ensures key in program.values ==> program.values[key] == result
      ensures key in program.values || IsConstant(program.kind)
      decreases program.height, 2
    {
      if key in program.values {
        return program.values[key];
      }
      if size == 0 {
        size := ExtractOutputSize(program, S, table, n);
      }
      if IsConstant(program.kind) {
        if size == 0 { size := 1; }
        result := UnwrapConstant(program, table);
        return;
      }
      result := RunLink(program, S, table, n);
    }

    /** Runs the outgoing set, executes the link on the results and stores the value. */
    method RunLink(program: Atom, ghost S: set<Atom>, ghost table: Table, ghost n: nat) returns (result: Column)
      requires n > 0 && Closed(S) && program in S && Memo(S, key, table, n)
      requires TypedAtom(program, table, n) && !IsVariable(program.kind) && !IsConstant(program.kind)
      requires size == n || (size == 0 && n == 1 && !HasColumn(program, key, S))
      requires key !in program.values
      modifies this`size, S`values
      ensures size == n && Memo(S, key, table, n) && Grown(old(Stores(S)), Stores(S), key)
      ensures Means(result, program, table, n) && key in program.values && program.values[key] == result
      decreases program.height, 1
    {
      TypedOutgoing(program, table, n);
      var params := RunAll(program, S, table, n);
      ParametersExecutable(program, params, table, n);
      result := Execute(program.kind, params);
      ExecutedMeans(program, params, result, table, n);
      ghost var before := Stores(S);
      Store(program, result, S, table, n);
      GrownTwice(old(Stores(S)), before, Stores(S), key);
    }

    method Store(program: Atom, value: Column, ghost S: set<Atom>, ghost table: Table, ghost n: nat)
      requires Closed(S) && program in S && Memo(S, key, table, n) && Means(value, program, table, n)
      modifies program`values
      ensures program.values == old(program.values)[key := value]
      ensures Memo(S, key, table, n)
      ensures Grown(old(Stores(S)), Stores(S), key)
    {
      if key in program.values { MeansUnique(value, program.values[key], program, table, n); }
      program.values := program.values[key := value];
    }

    /** The loop over the outgoing set. */
    method RunAll(program: Atom, ghost S: set<Atom>, ghost table: Table, ghost n: nat) returns (params: seq<Column>)
      requires n > 0 && Closed(S) && program in S && Memo(S, key, table, n)
      requires program.outgoing != []
      requires forall i | 0 <= i < |program.outgoing| :: TypedAtom(program.outgoing[i], table, n)
      requires size == n || (size == 0 && n == 1 && !HasColumn(program, key, S))
      modifies this`size, S`values
      ensures size == n && Memo(S, key, table, n) && Grown(old(Stores(S)), Stores(S), key)
      ensures |params| == |program.outgoing|
      ensures forall i | 0 <= i < |params| :: Means(params[i], program.outgoing[i], table, n)
      decreases program.height, 0
    {
      params := [];
      assert size == n || key !in program.outgoing[0].values by {
        if !HasColumn(program, key, S) { assert !HasColumn(program.outgoing[0], key, S); }
      }
      for i := 0 to |program.outgoing|
        invariant |params| == i && Memo(S, key, table, n) && Grown(old(Stores(S)), Stores(S), key)
        invariant size == n || (size == 0 && n == 1 && i == 0)
        invariant i == 0 ==> size == old(size) && program.outgoing[0].values == old(program.outgoing[0].values)
        invariant forall k | 0 <= k < i :: Means(params[k], program.outgoing[k], table, n)
      {
        ghost var before := Stores(S);
        var p := Run(program.outgoing[i], S, table, n);
        params := params + [p];
        GrownTwice(old(Stores(S)), before, Stores(S), key);
      }
    }

    /** Number of rows of the first value found under the key, 0 if there is none. */
    method ExtractOutputSize(program: Atom, ghost S: set<Atom>, ghost table: Table, ghost n: nat) returns (s: nat)
      requires n > 0 && Closed(S) && program in S && Memo(S, key, table, n)
      ensures s == if HasColumn(program, key, S) then n else 0
      decreases program.height
    {
      if key in program.values {
        return Length(program.values[key]);
      }
      for i := 0 to |program.outgoing|
        invariant forall k | 0 <= k < i :: !HasColumn(program.outgoing[k], key, S)
      {
        s := ExtractOutputSize(program.outgoing[i], S, table, n);
        if s != 0 { return; }
      }
      return 0;
    }

    method UnwrapConstant(handle: Atom, ghost table: Table) returns (c: Column)
      requires IsConstant(handle.kind) && Grounded(handle) && size > 0
      ensures Means(c, handle, table, size)
    {
      if handle.kind == NumberNode {
        c := Floats(Repeat(handle.number, size));
      } else {
        c := Links(Repeat(handle.kind == TrueLink, size));
      }
    }

    method Execute(kind: Kind, params: seq<Column>) returns (c: Column)
      requires Executable(kind, params, size)
      ensures Executed(kind, params, c, size)
    {
      match kind
      case AndLink => c := FoldAnd(params);
      case OrLink => c := FoldOr(params);
      case PlusLink => c := FoldPlus(params);
      case TimesLink => c := FoldTimes(params);
      case NotLink =>
        var bs := LogicalNot(params[0].bs);
        c := Links(bs);
      case ImpulseLink => c := Impulses(params[0]);
      case GreaterThanLink =>
        var bs := GreaterThan(params[0].xs, params[1].xs);
        c := Links(bs);
    }

    method FoldAnd(params: seq<Column>) returns (c: Column)
      requires BoolColumns(params, size)
      ensures Executed(AndLink, params, c, size)
    {
      var result := Repeat(true, size);
      for k := 0 to |params|
        invariant |result| == size && forall r | 0 <= r < size :: result[r] == AllTrue(params, k, size, r)
      {
        result := LogicalAnd(result, params[k].bs);
      }
      c := Links(result);
    }

    method FoldOr(params: seq<Column>) returns (c: Column)
      requires BoolColumns(params, size)
      ensures Executed(OrLink, params, c, size)
    {
      var result := Repeat(false, size);
      for k := 0 to |params|
        invariant |result| == size && forall r | 0 <= r < size :: result[r] == AnyTrue(params, k, size, r)
      {
        result := LogicalOr(result, params[k].bs);
      }
      c := Links(result);
    }

    method FoldPlus(params: seq<Column>) returns (c: Column)
      requires FloatColumns(params, size)
      ensures Executed(PlusLink, params, c, size)
    {
      var result := Repeat(0.0, size);
      for k := 0 to |params|
        invariant |result| == size && forall r | 0 <= r < size :: result[r] == SumOf(params, k, size, r)
      {
        result := PlusColumns(result, params[k].xs);
      }
      c := Floats(result);
    }

    method FoldTimes(params: seq<Column>) returns (c: Column)
      requires params != [] && FloatColumns(params, size)
      ensures Executed(TimesLink, params, c, size)
    {
      var result := Repeat(1.0, |params[0].xs|);
      for k := 0 to |params|
        invariant |result| == size && forall r | 0 <= r < size :: result[r] == ProductOf(params, k, size, r)
      {
        result := TimesColumns(result, params[k].xs);
      }
      c := Floats(result);
    }

    method Impulses(p: Column) returns (c: Column)
      requires p.Links? && |p.bs| == size
      ensures Executed(ImpulseLink, [p], c, size)
    {
      var xs: seq<real> := [];
      for r := 0 to |p.bs|
        invariant |xs| == r && forall k | 0 <= k < r :: xs[k] == if p.bs[k] then 1.0 else 0.0
      {
        xs := xs + [if p.bs[r] then 1.0 else 0.0];
      }
      c := Floats(xs);
    }
  }

  // ---------------------------------------------------------------- from columns to meaning

  /** A program without any column below it, such as and(true), run by an interpreter
      that does not know the number of rows yet: its value has length one, however
      many rows the table has, and one is the size from then on. */
  method RunWithoutColumns(interpreter: Interpreter, program: Atom, ghost S: set<Atom>, ghost table: Table)
    returns (result: Column)
    requires interpreter.size == 0 && Closed(S) && program in S && TypedAtom(program, table, 1)
    requires forall a | a in S :: !IsVariable(a.kind) && interpreter.key !in a.values
    modifies interpreter`size, S`values
    ensures interpreter.size == 1 && Length(result) == 1 && Means(result, program, table, 1)
  {
    result := interpreter.Run(program, S, table, 1);
  }

  lemma {:induction false} MeansUnique(c: Column, d: Column, a: Atom, table: Table, n: nat)
    requires Grounded(a) && Means(c, a, table, n) && Means(d, a, table, n)
    ensures c == d
  {
    if BoolAtom(a, table, n) {
      assert c.bs == d.bs;
    } else {
      assert c.xs == d.xs;
    }
  }

  lemma {:induction false} TypedOutgoing(a: Atom, table: Table, n: nat)
    requires Grounded(a) && TypedAtom(a, table, n) && !IsVariable(a.kind) && !IsConstant(a.kind)
    ensures a.outgoing != []
    ensures if a.kind in {AndLink, OrLink, NotLink, ImpulseLink} then BoolAtoms(a.outgoing, table, n) else FloatAtoms(a.outgoing, table, n)
    ensures forall i | 0 <= i < |a.outgoing| :: TypedAtom(a.outgoing[i], table, n)
  {
  }

  ghost predicate MeansAll(ps: seq<Column>, a: Atom, table: Table, n: nat)
    requires Grounded(a)
  {
    |ps| == |a.outgoing| && forall i | 0 <= i < |ps| :: Means(ps[i], a.outgoing[i], table, n)
  }

  lemma {:induction false} ParametersExecutable(a: Atom, ps: seq<Column>, table: Table, n: nat)
    requires Grounded(a) && TypedAtom(a, table, n) && !IsVariable(a.kind) && !IsConstant(a.kind)
    requires MeansAll(ps, a, table, n)
    ensures Executable(a.kind, ps, n)
  {
    TypedOutgoing(a, table, n);
  }

  lemma {:induction false} FoldsOfBools(a: Atom, ps: seq<Column>, k: nat, table: Table, n: nat, r: nat)
    requires Grounded(a) && BoolAtoms(a.outgoing, table, n) && MeansAll(ps, a, table, n)
    requires BoolColumns(ps, n) && k <= |ps| && r < n
    ensures AllTrue(ps, k, n, r) == AllAt(a, k, table, n, r)
    ensures AnyTrue(ps, k, n, r) == AnyAt(a, k, table, n, r)
  {
    if k > 0 {
      FoldsOfBools(a, ps, k - 1, table, n, r);
      assert Means(ps[k - 1], a.outgoing[k - 1], table, n);
    }
  }

  lemma {:induction false} FoldsOfFloats(a: Atom, ps: seq<Column>, k: nat, table: Table, n: nat, r: nat)
    requires Grounded(a) && FloatAtoms(a.outgoing, table, n) && MeansAll(ps, a, table, n)
    requires FloatColumns(ps, n) && k <= |ps| && r < n
    ensures SumOf(ps, k, n, r) == SumAt(a, k, table, n, r)
    ensures ProductOf(ps, k, n, r) == ProductAt(a, k, table, n, r)
  {
    if k > 0 {
      FoldsOfFloats(a, ps, k - 1, table, n, r);
      assert Means(ps[k - 1], a.outgoing[k - 1], table, n);
      assert ps[k - 1].xs[r] == FloatAt(a.outgoing[k - 1], table, n, r);
    }
  }

  lemma {:induction false} ExecutedMeans(a: Atom, ps: seq<Column>, c: Column, table: Table, n: nat)
    requires Grounded(a) && TypedAtom(a, table, n) && !IsVariable(a.kind) && !IsConstant(a.kind)
    requires MeansAll(ps, a, table, n) && Executable(a.kind, ps, n) && Executed(a.kind, ps, c, n)
    ensures Means(c, a, table, n)
  {
    TypedOutgoing(a, table, n);
    assert forall i | 0 <= i < |ps| :: Means(ps[i], a.outgoing[i], table, n);
    if BoolAtoms(a.outgoing, table, n) && BoolColumns(ps, n) {
      forall r | 0 <= r < n
        ensures AllTrue(ps, |ps|, n, r) == AllAt(a, |ps|, table, n, r) && AnyTrue(ps, |ps|, n, r) == AnyAt(a, |ps|, table, n, r)
      {
        FoldsOfBools(a, ps, |ps|, table, n, r);
      }
    }
    if FloatAtoms(a.outgoing, table, n) && FloatColumns(ps, n) {
      forall r | 0 <= r < n
        ensures SumOf(ps, |ps|, n, r) == SumAt(a, |ps|, table, n, r) && ProductOf(ps, |ps|, n, r) == ProductAt(a, |ps|, table, n, r)
      {
        FoldsOfFloats(a, ps, |ps|, table, n, r);
      }
    }
  }
}
