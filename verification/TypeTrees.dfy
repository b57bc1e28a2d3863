/** Type trees of the Combo language and the inheritance relation between them.
    A type tree is a node label with an ordered list of subtrees. */
module TypeTrees {
  import opened Trees

  /** The labels of a type tree, in the order of the source's enumeration. */
  datatype TypeNode =
    | Lambda
    | Application
    | Union
    | ArgList
    | Boolean
    | Contin
    | EnumType
    | ListType
    | ActionResult
    | DefiniteObject
    | ActionDefiniteObject
    | IndefiniteObject
    | MessageType
    | ActionSymbol
    | WildCard
    | Ann
    | Unknown
    | IllFormed
    | Argument(idx: nat)  // counted from zero: Argument(0) is $1
  {
    predicate Operator() { Lambda? || Application? || Union? || ArgList? }
  }

  type TypeTree = Tree<TypeNode>

  function Leaf(n: TypeNode): TypeTree { Node(n, []) }

  /** What the assertions of the type checker demand of a tree: every operator
      has a child, arg_list exactly one, and elementary types have none. */
  predicate Shaped(t: TypeTree) {
    && (match t.op
        case Lambda => |t.kids| > 0
        case Application => |t.kids| > 0
        case Union => |t.kids| > 0
        case ArgList => |t.kids| == 1
        case _ => t.kids == [])
    && forall i | 0 <= i < |t.kids| :: Shaped(t.kids[i])
  }

  /** No ill_formed label occurs in the tree. */
  predicate WellFormed(t: TypeTree) {
    t.op != IllFormed && forall i | 0 <= i < |t.kids| :: WellFormed(t.kids[i])
  }

  /** Whether terms of type a may stand where terms of type b are wanted. */
  predicate Inherit(a: TypeTree, b: TypeTree)
    requires Shaped(a) && Shaped(b)
    decreases Size(a) + Size(b)
  {
    if a.op.Union? then
      forall i | 0 <= i < |a.kids| :: Inherit(a.kids[i], b)
    else if b.op.Union? then
      exists i | 0 <= i < |b.kids| :: Inherit(a, b.kids[i])
    else if a.op.Lambda? && b.op.Lambda? then
      && |a.kids| == |b.kids|
      && (forall i | 0 <= i < |b.kids| - 1 ::
            Inherit(b.kids[i], a.kids[i]) || b.kids[i].op.Unknown?)
      && Inherit(Last(a.kids), Last(b.kids))
    else if a.op.Application? then
      false
    else if a.op.ArgList? && b.op.ArgList? then
      Inherit(a.kids[0], b.kids[0])
    else if a.op.IllFormed? || b.op.IllFormed? then
      false
    else if b.op.Unknown? then
      true
    else
      a.op == b.op
  }

  predicate EqualType(a: TypeTree, b: TypeTree)
    requires Shaped(a) && Shaped(b)
  {
    Inherit(a, b) && Inherit(b, a)
  }

  /** No application is left in the tree. */
  predicate NoApplication(t: TypeTree) {
    !t.op.Application? && forall i | 0 <= i < |t.kids| :: NoApplication(t.kids[i])
  }

  /** No member of the list inherits from another one. */
  predicate Incomparable(ts: seq<TypeTree>)
    requires forall i | 0 <= i < |ts| :: Shaped(ts[i])
  {
    forall i, j | 0 <= i < |ts| && 0 <= j < |ts| && i != j :: !Inherit(ts[i], ts[j])
  }

  /** Nothing is left for the reduction to do: no application, no argument,
      no operator that could be dropped, no union member covered by another. */
  predicate Normal(t: TypeTree) {
    && Shaped(t)
    && !t.op.Application? && !t.op.Argument?
    && (t.op.Lambda? || t.op.Union? ==> |t.kids| >= 2)
    && (t.op.Union? ==> Incomparable(t.kids))
    && forall i | 0 <= i < |t.kids| :: Normal(t.kids[i])
  }

  /** The members of a union, down through unions that are members themselves. */
  function Members(t: TypeTree): (r: seq<TypeTree>)
    requires Shaped(t)
    ensures r != [] && forall i | 0 <= i < |r| :: Shaped(r[i]) && !r[i].op.Union?
    decreases t, 0
  {
    if t.op.Union? then MembersAll(t.kids) else [t]
  }

  function MembersAll(ts: seq<TypeTree>): (r: seq<TypeTree>)
    requires forall i | 0 <= i < |ts| :: Shaped(ts[i])
    ensures ts != [] ==> r != []
    ensures forall i | 0 <= i < |r| :: Shaped(r[i]) && !r[i].op.Union?
    decreases ts
  {
    if ts == [] then [] else Members(ts[0]) + MembersAll(ts[1..])
  }

  /** A normal, well-formed type in which no member of a union inherits from another
      one, members of members included. */
  predicate Reduced(t: TypeTree) {
    && Normal(t)
    && t.op != IllFormed
    && (t.op.Union? ==> Incomparable(Members(t)))
    && forall i | 0 <= i < |t.kids| :: Reduced(t.kids[i])
  }

  /** No parameter of any lambda in the tree is the unknown type. */
  predicate NoUnknownParameter(t: TypeTree) {
    && (t.op.Lambda? ==> forall i | 0 <= i < |t.kids| - 1 :: !t.kids[i].op.Unknown?)
    && forall i | 0 <= i < |t.kids| :: NoUnknownParameter(t.kids[i])
  }

  // ---------------------------------------------------------------- order theory

  /** A tree inherits from a union as soon as it inherits from a member,
      even when it is a union itself. */
  lemma {:induction false} InheritMember(a: TypeTree, u: TypeTree, i: nat)
    requires Shaped(a) && Shaped(u) && u.op.Union? && i < |u.kids|
    requires Inherit(a, u.kids[i])
    ensures Inherit(a, u)
  {
    if a.op.Union? {
      forall j | 0 <= j < |a.kids| ensures Inherit(a.kids[j], u) {
        InheritMember(a.kids[j], u, i);
      }
    }
  }

  lemma {:induction false} InheritReflexive(t: TypeTree)
    requires Shaped(t) && NoApplication(t) && WellFormed(t)
    ensures Inherit(t, t)
  {
    forall i | 0 <= i < |t.kids| ensures Inherit(t.kids[i], t.kids[i]) {
      InheritReflexive(t.kids[i]);
    }
    if t.op.Union? {
      forall i | 0 <= i < |t.kids| ensures Inherit(t.kids[i], t) {
        InheritMember(t.kids[i], t, i);
      }
    }
  }

  /** Inheritance chains through any middle type that has no unknown parameter. */
  lemma {:induction false} InheritTransitive(a: TypeTree, b: TypeTree, c: TypeTree)
    requires Shaped(a) && Shaped(b) && Shaped(c)
    requires NoUnknownParameter(b)
    requires Inherit(a, b) && Inherit(b, c)
    ensures Inherit(a, c)
    decreases Size(a) + Size(b) + Size(c)
  {
    if a.op.Union? {
      forall i | 0 <= i < |a.kids| ensures Inherit(a.kids[i], c) {
        InheritTransitive(a.kids[i], b, c);
      }
    } else if b.op.Union? {
      var i :| 0 <= i < |b.kids| && Inherit(a, b.kids[i]);
      InheritTransitive(a, b.kids[i], c);
    } else if c.op.Union? {
      var i :| 0 <= i < |c.kids| && Inherit(b, c.kids[i]);
      InheritTransitive(a, b, c.kids[i]);
    } else if a.op.Lambda? && b.op.Lambda? && c.op.Lambda? {
      forall i | 0 <= i < |c.kids| - 1
        ensures Inherit(c.kids[i], a.kids[i]) || c.kids[i].op.Unknown?
      {
        if !c.kids[i].op.Unknown? {
          InheritTransitive(c.kids[i], b.kids[i], a.kids[i]);
        }
      }
      InheritTransitive(Last(a.kids), Last(b.kids), Last(c.kids));
    } else if a.op.ArgList? && b.op.ArgList? && c.op.ArgList? {
      InheritTransitive(a.kids[0], b.kids[0], c.kids[0]);
    }
  }

  lemma {:induction false} ReducedIsReflexive(t: TypeTree)
    requires Reduced(t)
    ensures Inherit(t, t)
  {
    ReducedParts(t);
    InheritReflexive(t);
  }

  lemma {:induction false} ReducedParts(t: TypeTree)
    requires Reduced(t)
    ensures Shaped(t) && NoApplication(t) && WellFormed(t)
  {
    forall i | 0 <= i < |t.kids| ensures Shaped(t.kids[i]) && NoApplication(t.kids[i]) && WellFormed(t.kids[i]) {
      ReducedParts(t.kids[i]);
    }
  }

  // ------------------------------------------- where transitivity really fails

  /** a and c sit just below and just above b, and the chain through b breaks:
      nothing above a misses b, nothing below c misses b, yet a is not below c. */
  ghost predicate BrokenChain(a: TypeTree, b: TypeTree, c: TypeTree)
    requires Shaped(b)
  {
    && Shaped(a) && Shaped(c)
    && a.op == b.op == c.op
    && Inherit(a, b) && Inherit(b, c) && !Inherit(a, c)
    && (forall y | Shaped(y) && Inherit(a, y) :: Inherit(b, y))
    && (forall x | Shaped(x) && Inherit(x, c) :: Inherit(x, b))
  }

  lemma {:induction false} BreakChain(b: TypeTree) returns (a: TypeTree, c: TypeTree)
    requires Reduced(b) && !NoUnknownParameter(b)
    ensures BrokenChain(a, b, c)
    decreases Size(b)
  {
    if b.op.Union? {
      var x := UnknownMember(b);
      var a', c' := BreakChain(x);
      a, c := BreakAmongMembers(b, x, a', c');
    } else {
      a, c := BreakChainBelow(b);
    }
  }

  lemma {:induction false} BreakChainBelow(b: TypeTree) returns (a: TypeTree, c: TypeTree)
    requires Reduced(b) && !NoUnknownParameter(b) && !b.op.Union?
    ensures BrokenChain(a, b, c)
    decreases Size(b), 0
  {
    forall k | 0 <= k < |b.kids| ensures Inherit(b.kids[k], b.kids[k]) {
      ReducedIsReflexive(b.kids[k]);
    }
    if i :| b.op.Lambda? && 0 <= i < |b.kids| - 1 && b.kids[i].op.Unknown? {
      a, c := BreakUnknown(b, i);
    } else {
      var i :| 0 <= i < |b.kids| && !NoUnknownParameter(b.kids[i]);
      var a', c' := BreakChain(b.kids[i]);
      assert Shaped(b);
      a, c := BreakAround(b, i, a', c');
    }
  }

  /** A chain broken at a child breaks, one way or the other, at its parent. */
  lemma {:induction false} BreakAround(b: TypeTree, i: nat, a': TypeTree, c': TypeTree) returns (a: TypeTree, c: TypeTree)
    requires Shaped(b) && !b.op.Application? && !b.op.Union? && i < |b.kids|
    requires forall k | 0 <= k < |b.kids| :: Inherit(b.kids[k], b.kids[k])
    requires BrokenChain(a', b.kids[i], c') && !b.kids[i].op.Unknown?
    ensures BrokenChain(a, b, c)
  {
    if b.op.Lambda? && i < |b.kids| - 1 {
      a, c := Node(Lambda, b.kids[i := c']), Node(Lambda, b.kids[i := a']);
      BreakAtParameter(a, b, c, i);
    } else {
      a, c := Node(b.op, b.kids[i := a']), Node(b.op, b.kids[i := c']);
      BreakAtResult(a, b, c, i);
    }
  }

  lemma {:induction false} BreakUnknown(b: TypeTree, i: nat) returns (a: TypeTree, c: TypeTree)
    requires Shaped(b) && b.op.Lambda? && i < |b.kids| - 1 && b.kids[i].op.Unknown?
    requires forall k | 0 <= k < |b.kids| :: Inherit(b.kids[k], b.kids[k])
    ensures BrokenChain(a, b, c)
  {
    assert b.kids[i] == Leaf(Unknown);
    a := Node(Lambda, b.kids[i := Leaf(Contin)]);
    c := Node(Lambda, b.kids[i := Leaf(Boolean)]);
    forall y | Shaped(y) && Inherit(y, Leaf(Contin)) ensures Inherit(y, Leaf(Unknown)) {
      InheritTransitive(y, Leaf(Contin), Leaf(Unknown));
    }
    BreakAtParameter(a, b, c, i);
  }

  /** b is a lambda whose parameter i is replaced by p in a and by q in c. */
  ghost predicate ParameterSwap(a: TypeTree, b: TypeTree, c: TypeTree, i: nat) {
    && Shaped(b) && b.op.Lambda? && i < |b.kids| - 1
    && Shaped(a) && a.op.Lambda? && |a.kids| == |b.kids| && a.kids == b.kids[i := a.kids[i]]
    && Shaped(c) && c.op.Lambda? && |c.kids| == |b.kids| && c.kids == b.kids[i := c.kids[i]]
    && (forall k | 0 <= k < |b.kids| :: Inherit(b.kids[k], b.kids[k]))
    && !c.kids[i].op.Unknown? && !Inherit(c.kids[i], a.kids[i])
    && Inherit(c.kids[i], b.kids[i])
    && (b.kids[i].op.Unknown? || Inherit(b.kids[i], a.kids[i]))
    && (forall y | Shaped(y) && Inherit(y, a.kids[i]) :: Inherit(y, b.kids[i]))
    && (forall x | Shaped(x) && Inherit(c.kids[i], x) :: b.kids[i].op.Unknown? || Inherit(b.kids[i], x))
  }

  lemma {:induction false} BreakAtParameter(a: TypeTree, b: TypeTree, c: TypeTree, i: nat)
    requires ParameterSwap(a, b, c, i)
    ensures BrokenChain(a, b, c)
  {
    assert !Inherit(a, c);
    forall y | Shaped(y) && Inherit(a, y) ensures Inherit(b, y) {
      ParameterAbove(a, b, c, i, y);
    }
    forall x | Shaped(x) && Inherit(x, c) ensures Inherit(x, b) {
      ParameterBelow(a, b, c, i, x);
    }
  }

  lemma {:induction false} ParameterAbove(a: TypeTree, b: TypeTree, c: TypeTree, i: nat, y: TypeTree)
    requires ParameterSwap(a, b, c, i) && Shaped(y) && Inherit(a, y)
    ensures Inherit(b, y)
    decreases y
  {
    if y.op.Union? {
      var k :| 0 <= k < |y.kids| && Inherit(a, y.kids[k]);
      ParameterAbove(a, b, c, i, y.kids[k]);
    } else if y.op.Lambda? {
      assert forall k | 0 <= k < |y.kids| - 1 && k != i :: a.kids[k] == b.kids[k];
      assert Inherit(y.kids[i], a.kids[i]) || y.kids[i].op.Unknown?;
    }
  }

  lemma {:induction false} ParameterBelow(a: TypeTree, b: TypeTree, c: TypeTree, i: nat, x: TypeTree)
    requires ParameterSwap(a, b, c, i) && Shaped(x) && Inherit(x, c)
    ensures Inherit(x, b)
    decreases x
  {
    if x.op.Union? {
      forall k | 0 <= k < |x.kids| ensures Inherit(x.kids[k], b) {
        ParameterBelow(a, b, c, i, x.kids[k]);
      }
    } else if x.op.Lambda? {
      assert forall k | 0 <= k < |c.kids| - 1 && k != i :: c.kids[k] == b.kids[k];
      assert Inherit(c.kids[i], x.kids[i]);
    }
  }

  /** b is a lambda or an arg_list whose last child is replaced by the ends of a broken chain. */
  ghost predicate ResultSwap(a: TypeTree, b: TypeTree, c: TypeTree, i: nat) {
    && Shaped(b) && (b.op.Lambda? || b.op.ArgList?) && i == |b.kids| - 1
    && Shaped(a) && a.op == b.op && |a.kids| == |b.kids| && a.kids == b.kids[i := a.kids[i]]
    && Shaped(c) && c.op == b.op && |c.kids| == |b.kids| && c.kids == b.kids[i := c.kids[i]]
    && (forall k | 0 <= k < |b.kids| :: Inherit(b.kids[k], b.kids[k]))
    && BrokenChain(a.kids[i], b.kids[i], c.kids[i])
  }

  lemma {:induction false} BreakAtResult(a: TypeTree, b: TypeTree, c: TypeTree, i: nat)
    requires ResultSwap(a, b, c, i)
    ensures BrokenChain(a, b, c)
  {
    forall y | Shaped(y) && Inherit(a, y) ensures Inherit(b, y) {
      ResultAbove(a, b, c, i, y);
    }
    forall x | Shaped(x) && Inherit(x, c) ensures Inherit(x, b) {
      ResultBelow(a, b, c, i, x);
    }
  }

  lemma {:induction false} ResultAbove(a: TypeTree, b: TypeTree, c: TypeTree, i: nat, y: TypeTree)
    requires ResultSwap(a, b, c, i) && Shaped(y) && Inherit(a, y)
    ensures Inherit(b, y)
    decreases y
  {
    if y.op.Union? {
      var k :| 0 <= k < |y.kids| && Inherit(a, y.kids[k]);
      ResultAbove(a, b, c, i, y.kids[k]);
    } else if y.op == b.op {
      assert Inherit(a.kids[i], Last(y.kids));
    }
  }

  lemma {:induction false} ResultBelow(a: TypeTree, b: TypeTree, c: TypeTree, i: nat, x: TypeTree)
    requires ResultSwap(a, b, c, i) && Shaped(x) && Inherit(x, c)
    ensures Inherit(x, b)
    decreases x
  {
    if x.op.Union? {
      forall k | 0 <= k < |x.kids| ensures Inherit(x.kids[k], b) {
        ResultBelow(a, b, c, i, x.kids[k]);
      }
    } else if x.op == b.op {
      assert Inherit(Last(x.kids), c.kids[i]);
    }
  }

  /** b is a union of incomparable members one of which is replaced by the ends of a broken chain. */
  ghost predicate MemberSwap(a: TypeTree, b: TypeTree, c: TypeTree, i: nat) {
    && Shaped(b) && b.op.Union? && i < |b.kids|
    && Shaped(a) && a.op == b.op && |a.kids| == |b.kids| && a.kids == b.kids[i := a.kids[i]]
    && Shaped(c) && c.op == b.op && |c.kids| == |b.kids| && c.kids == b.kids[i := c.kids[i]]
    && (forall k | 0 <= k < |b.kids| :: Inherit(b.kids[k], b.kids[k]))
    && Incomparable(b.kids) && !b.kids[i].op.Union?
    && BrokenChain(a.kids[i], b.kids[i], c.kids[i])
  }

  lemma {:induction false} BreakInUnion(a: TypeTree, b: TypeTree, c: TypeTree, i: nat)
    requires MemberSwap(a, b, c, i)
    ensures BrokenChain(a, b, c)
  {
    forall k | 0 <= k < |b.kids| ensures Inherit(a.kids[k], b) && Inherit(b.kids[k], c) {
      assert k == i || (a.kids[k] == b.kids[k] && c.kids[k] == b.kids[k]);
      InheritMember(a.kids[k], b, k);
      InheritMember(b.kids[k], c, k);
    }
    assert !Inherit(a.kids[i], c) by {
      forall k | 0 <= k < |c.kids| ensures !Inherit(a.kids[i], c.kids[k]) {
        if k != i { assert !Inherit(b.kids[i], b.kids[k]) && c.kids[k] == b.kids[k]; }
      }
    }
    forall y | Shaped(y) && Inherit(a, y) ensures Inherit(b, y) {
      forall k | 0 <= k < |b.kids| ensures Inherit(b.kids[k], y) {
        assert Inherit(a.kids[k], y) && (k == i || a.kids[k] == b.kids[k]);
      }
    }
    forall x | Shaped(x) && Inherit(x, c) ensures Inherit(x, b) {
      MemberBelow(a, b, c, i, x);
    }
  }

  lemma {:induction false} MemberBelow(a: TypeTree, b: TypeTree, c: TypeTree, i: nat, x: TypeTree)
    requires MemberSwap(a, b, c, i) && Shaped(x) && Inherit(x, c)
    ensures Inherit(x, b)
    decreases x
  {
    if x.op.Union? {
      forall k | 0 <= k < |x.kids| ensures Inherit(x.kids[k], b) {
        MemberBelow(a, b, c, i, x.kids[k]);
      }
    } else {
      var k :| 0 <= k < |c.kids| && Inherit(x, c.kids[k]);
      assert k == i || c.kids[k] == b.kids[k];
      assert Inherit(x, b.kids[k]);
    }
  }

  /** A union is below y when its members are, and above y when one of them is. */
  lemma {:induction false} MembersInherit(t: TypeTree, y: TypeTree)
    requires Shaped(t) && Shaped(y)
    ensures Inherit(t, y) <==> forall m | m in Members(t) :: Inherit(m, y)
    ensures !y.op.Union? ==> (Inherit(y, t) <==> exists m :: m in Members(t) && Inherit(y, m))
    decreases t, 0
  {
    if t.op.Union? {
      MembersAllInherit(t.kids, y);
    } else {
      assert forall m | m in Members(t) :: m == t;
      assert t in Members(t);
    }
  }

  lemma {:induction false} MembersAllInherit(ts: seq<TypeTree>, y: TypeTree)
    requires Shaped(y) && forall i | 0 <= i < |ts| :: Shaped(ts[i])
    ensures (forall i | 0 <= i < |ts| :: Inherit(ts[i], y)) <==> forall m | m in MembersAll(ts) :: Inherit(m, y)
    ensures !y.op.Union? ==>
              ((exists i :: 0 <= i < |ts| && Inherit(y, ts[i])) <==> exists m :: m in MembersAll(ts) && Inherit(y, m))
    decreases ts
  {
    if ts != [] {
      MembersInherit(ts[0], y);
      MembersAllInherit(ts[1..], y);
      assert forall m :: m in MembersAll(ts) <==> m in Members(ts[0]) || m in MembersAll(ts[1..]);
      assert forall i | 0 < i < |ts| :: ts[i] == ts[1..][i - 1];
    }
  }

  lemma {:induction false} MembersAreReduced(t: TypeTree, m: TypeTree)
    requires Reduced(t) && m in Members(t)
    ensures Reduced(m) && (t.op.Union? ==> Size(m) < Size(t))
    ensures Size(m) <= Size(t)
    decreases t, 0
  {
    if t.op.Union? { MembersAllAreReduced(t.kids, m); }
  }

  lemma {:induction false} MembersAllAreReduced(ts: seq<TypeTree>, m: TypeTree)
    requires (forall i | 0 <= i < |ts| :: Shaped(ts[i]) && Reduced(ts[i])) && m in MembersAll(ts)
    ensures Reduced(m) && Size(m) <= SizeAll(ts)
    decreases ts
  {
    if m in Members(ts[0]) {
      MembersAreReduced(ts[0], m);
    } else {
      MembersAllAreReduced(ts[1..], m);
    }
  }

  lemma {:induction false} UnknownMember(t: TypeTree) returns (m: TypeTree)
    requires Reduced(t) && !NoUnknownParameter(t)
    ensures m in Members(t) && !NoUnknownParameter(m) && Reduced(m) && Size(m) <= Size(t)
    ensures t.op.Union? ==> Size(m) < Size(t)
    decreases t, 0
  {
    if t.op.Union? {
      m := UnknownMemberOf(t.kids);
    } else {
      m := t;
    }
    MembersAreReduced(t, m);
  }

  lemma {:induction false} UnknownMemberOf(ts: seq<TypeTree>) returns (m: TypeTree)
    requires forall i | 0 <= i < |ts| :: Shaped(ts[i]) && Reduced(ts[i])
    requires exists i :: 0 <= i < |ts| && !NoUnknownParameter(ts[i])
    ensures m in MembersAll(ts) && !NoUnknownParameter(m)
    decreases ts
  {
    if !NoUnknownParameter(ts[0]) {
      m := UnknownMember(ts[0]);
    } else {
      var i :| 0 <= i < |ts| && !NoUnknownParameter(ts[i]);
      assert ts[i] == ts[1..][i - 1];
      m := UnknownMemberOf(ts[1..]);
    }
  }

  /** A chain broken at one of the members breaks at the union. */
  lemma {:induction false} BreakAmongMembers(b: TypeTree, x: TypeTree, a': TypeTree, c': TypeTree)
    returns (a: TypeTree, c: TypeTree)
    requires Reduced(b) && b.op.Union? && x in Members(b) && BrokenChain(a', x, c')
    ensures BrokenChain(a, b, c)
  {
    var ms := Members(b);
    var flat := Node(Union, ms);
    var i :| 0 <= i < |ms| && ms[i] == x;
    forall k | 0 <= k < |ms| ensures Inherit(ms[k], ms[k]) {
      MembersAreReduced(b, ms[k]);
      ReducedIsReflexive(ms[k]);
    }
    a, c := Node(Union, ms[i := a']), Node(Union, ms[i := c']);
    BreakInUnion(a, flat, c, i);
    FlatIsEquivalent(b, a, c);
  }

  lemma {:induction false} FlatIsEquivalent(b: TypeTree, a: TypeTree, c: TypeTree)
    requires Shaped(b) && b.op.Union? && BrokenChain(a, Node(Union, Members(b)), c)
    ensures BrokenChain(a, b, c)
  {
    FlatBelow(b, c);
    FlatAbove(b, a);
    forall y | Shaped(y) && Inherit(a, y) ensures Inherit(b, y) {
      FlatBelow(b, y);
    }
    forall x | Shaped(x) && Inherit(x, c) ensures Inherit(x, b) {
      FlatAbove(b, x);
    }
  }

  lemma {:induction false} FlatBelow(b: TypeTree, y: TypeTree)
    requires Shaped(b) && b.op.Union? && Shaped(y)
    ensures Shaped(Node(Union, Members(b))) && Inherit(b, y) == Inherit(Node(Union, Members(b)), y)
  {
    MembersInherit(b, y);
    var flat := Node(Union, Members(b));
    if Inherit(flat, y) {
      forall m | m in Members(b) ensures Inherit(m, y) {
        var k :| 0 <= k < |flat.kids| && flat.kids[k] == m;
      }
    } else {
      var k :| 0 <= k < |flat.kids| && !Inherit(flat.kids[k], y);
      assert flat.kids[k] in Members(b);
    }
  }

  lemma {:induction false} FlatAbove(b: TypeTree, y: TypeTree)
    requires Shaped(b) && b.op.Union? && Shaped(y)
    ensures Shaped(Node(Union, Members(b))) && Inherit(y, b) == Inherit(y, Node(Union, Members(b)))
    decreases y
  {
    var flat := Node(Union, Members(b));
    if y.op.Union? {
      forall k | 0 <= k < |y.kids| ensures Inherit(y.kids[k], b) == Inherit(y.kids[k], flat) {
        FlatAbove(b, y.kids[k]);
      }
    } else {
      MembersInherit(b, y);
      if m :| m in Members(b) && Inherit(y, m) {
        var k :| 0 <= k < |flat.kids| && flat.kids[k] == m;
      }
    }
  }

  /** On reduced types, inheritance chains through b exactly when no lambda
      parameter in b is unknown. */
  lemma {:induction false} TransitiveThroughExactly(b: TypeTree)
    requires Reduced(b)
    ensures NoUnknownParameter(b) <==>
            forall a, c | Shaped(a) && Shaped(c) && Inherit(a, b) && Inherit(b, c) :: Inherit(a, c)
  {
    if NoUnknownParameter(b) { TransitiveThrough(b); }
    if !NoUnknownParameter(b) { IntransitiveThrough(b); }
  }

  lemma {:induction false} TransitiveThrough(b: TypeTree)
    requires Reduced(b) && NoUnknownParameter(b)
    ensures forall a, c | Shaped(a) && Shaped(c) && Inherit(a, b) && Inherit(b, c) :: Inherit(a, c)
  {
    forall a, c | Shaped(a) && Shaped(c) && Inherit(a, b) && Inherit(b, c) ensures Inherit(a, c) {
      InheritTransitive(a, b, c);
    }
  }

  lemma {:induction false} IntransitiveThrough(b: TypeTree)
    requires Reduced(b) && !NoUnknownParameter(b)
    ensures exists a, c :: Shaped(a) && Shaped(c) && Inherit(a, b) && Inherit(b, c) && !Inherit(a, c)
  {
    var a, c := BreakChain(b);
  }

  /** Whatever inherits from a type at all inherits from unknown. */
  lemma {:induction false} InheritsFromUnknown(a: TypeTree, b: TypeTree)
    requires Shaped(a) && Shaped(b) && Inherit(a, b)
    ensures Inherit(a, Leaf(Unknown))
    decreases Size(a) + Size(b)
  {
    if a.op.Union? {
      forall i | 0 <= i < |a.kids| ensures Inherit(a.kids[i], Leaf(Unknown)) {
        InheritsFromUnknown(a.kids[i], b);
      }
    } else if b.op.Union? {
      var i :| 0 <= i < |b.kids| && Inherit(a, b.kids[i]);
      InheritsFromUnknown(a, b.kids[i]);
    }
  }

  /** A union in a union can cover one member of it and not the other; the reduction
      leaves such a type as it is. */
  function HidingUnion(): TypeTree {
    var hidden := Node(Lambda, [Leaf(Boolean), Node(Lambda, [Leaf(Unknown), Leaf(Boolean)])]);
    var cover := Node(Lambda, [Leaf(Boolean), Leaf(Unknown)]);
    Node(Union, [Node(Union, [hidden, Leaf(EnumType)]), cover])
  }

  /** Where a member of a member is covered, inheritance can chain in spite of its
      unknown parameter. */
  lemma {:induction false} HiddenUnknownParameter()
    ensures var b := HidingUnion();
            && Normal(b) && WellFormed(b) && !Reduced(b) && !NoUnknownParameter(b)
            && forall a, c | Shaped(a) && Shaped(c) && Inherit(a, b) && Inherit(b, c) :: Inherit(a, c)
  {
    var b := HidingUnion();
    HidingUnionIsNormal();
    forall a, c | Shaped(a) && Shaped(c) && Inherit(a, b) && Inherit(b, c) ensures Inherit(a, c) {
      ChainPastHidden(a, c);
    }
  }

  lemma {:induction false} PairIsNormal(op: TypeNode, x: TypeTree, y: TypeTree)
    requires op.Lambda? || op.Union?
    requires Normal(x) && WellFormed(x) && Normal(y) && WellFormed(y)
    requires op.Union? ==> !Inherit(x, y) && !Inherit(y, x)
    ensures var t := Node(op, [x, y]);
            && Normal(t) && WellFormed(t)
            && (!NoUnknownParameter(x) || !NoUnknownParameter(y) || (op.Lambda? && x.op.Unknown?) ==> !NoUnknownParameter(t))
  {
    var t := Node(op, [x, y]);
    assert t.kids[0] == x && t.kids[1] == y;
  }

  lemma {:induction false} MembersOfPair(x: TypeTree, y: TypeTree)
    requires Shaped(x) && Shaped(y)
    ensures Shaped(Node(Union, [x, y])) && Members(Node(Union, [x, y])) == Members(x) + Members(y)
  {
    var ts, last := [x, y], [y];
    assert ts[1..] == last && last[1..] == [];
    assert MembersAll(last) == Members(y) + [] == Members(y);
    assert MembersAll(ts) == Members(x) + MembersAll(last);
    assert Node(Union, ts).kids == ts;
  }

  lemma {:induction false} HidingUnionIsNormal()
    ensures var b := HidingUnion();
            Normal(b) && WellFormed(b) && !Reduced(b) && !NoUnknownParameter(b)
  {
    var result := Node(Lambda, [Leaf(Unknown), Leaf(Boolean)]);
    var hidden, cover, other := Node(Lambda, [Leaf(Boolean), result]), Node(Lambda, [Leaf(Boolean), Leaf(Unknown)]), Leaf(EnumType);
    assert Normal(Leaf(Unknown)) && Normal(Leaf(Boolean)) && Normal(other);
    assert Normal(hidden) && WellFormed(hidden) && !NoUnknownParameter(hidden) by {
      PairIsNormal(Lambda, Leaf(Unknown), Leaf(Boolean));
      PairIsNormal(Lambda, Leaf(Boolean), result);
    }
    assert Normal(cover) && WellFormed(cover) by {
      PairIsNormal(Lambda, Leaf(Boolean), Leaf(Unknown));
    }
    HiddenIsCovered(hidden, cover, result);
    PairIsNormal(Union, hidden, other);
    HidingUnionFits(hidden, other, cover);
  }

  lemma {:induction false} HiddenIsCovered(hidden: TypeTree, cover: TypeTree, result: TypeTree)
    requires Shaped(hidden) && Shaped(cover) && result.op.Lambda?
    requires hidden == Node(Lambda, [Leaf(Boolean), result]) && cover == Node(Lambda, [Leaf(Boolean), Leaf(Unknown)])
    ensures Inherit(hidden, cover) && !Inherit(cover, hidden)
  {
    assert hidden.kids[1] == result && cover.kids[1] == Leaf(Unknown);
  }

  lemma {:induction false} HidingUnionFits(hidden: TypeTree, other: TypeTree, cover: TypeTree)
    requires Normal(hidden) && WellFormed(hidden) && !NoUnknownParameter(hidden) && hidden.op.Lambda?
    requires Normal(cover) && WellFormed(cover) && cover.op.Lambda? && Normal(other) && WellFormed(other) && other.op.EnumType?
    requires Inherit(hidden, cover) && !Inherit(cover, hidden)
    requires var u := Node(Union, [hidden, other]); Normal(u) && WellFormed(u) && !NoUnknownParameter(u)
    ensures var b := Node(Union, [Node(Union, [hidden, other]), cover]);
            Normal(b) && WellFormed(b) && !Reduced(b) && !NoUnknownParameter(b)
  {
    var u := Node(Union, [hidden, other]);
    var b := Node(Union, [u, cover]);
    assert u.kids[0] == hidden && u.kids[1] == other;
    PairIsNormal(Union, u, cover);
    MembersOfPair(hidden, other);
    MembersOfPair(u, cover);
    assert Members(b) == [hidden, other, cover];
    assert Inherit(Members(b)[0], Members(b)[2]);
  }

  lemma {:induction false} ChainPastHidden(a: TypeTree, c: TypeTree)
    requires Shaped(a) && Shaped(c) && Shaped(HidingUnion())
    requires Inherit(a, HidingUnion()) && Inherit(HidingUnion(), c)
    ensures Inherit(a, c)
    decreases a
  {
    var b := HidingUnion();
    var inner, cover := b.kids[0], b.kids[1];
    if a.op.Union? {
      forall k | 0 <= k < |a.kids| ensures Inherit(a.kids[k], c) {
        ChainPastHidden(a.kids[k], c);
      }
    } else if Inherit(a, inner.kids[1]) {
      InheritTransitive(a, inner.kids[1], c);
    } else {
      if Inherit(a, inner.kids[0]) { InheritsFromUnknown(Last(a.kids), inner.kids[0].kids[1]); }
      InheritTransitive(a, cover, c);
    }
  }

  /** The shortest failure: through ->(unknown r), for any result type r. */
  lemma {:induction false} UnknownParameterBreaksTransitivity(r: TypeTree)
    requires Shaped(r) && NoApplication(r) && WellFormed(r)
    ensures var a := Node(Lambda, [Leaf(Contin), r]);
            var b := Node(Lambda, [Leaf(Unknown), r]);
            var c := Node(Lambda, [Leaf(Boolean), r]);
            Inherit(a, b) && Inherit(b, c) && !Inherit(a, c)
  {
    InheritReflexive(r);
    var c := Node(Lambda, [Leaf(Boolean), r]);
    assert Inherit(c.kids[0], Leaf(Boolean)) && !Inherit(c.kids[0], Leaf(Contin));
  }
}
