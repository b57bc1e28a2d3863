/** Reading a tree from text: the parser's actions build it at a cursor. */
module TreeReaders {
  import opened Options
  import opened Trees
  import opened TreeLinks
  import opened TreeEdits
  import opened LinkedTrees
  import opened TreeCopies
  import opened TreeText

  /** The tree under construction: none yet; open at a node called name with the
      children built so far; or closed, with no node left to add to. */
  datatype Cursor = Nothing | Opened(c: Context<Text>, name: Text, kids: seq<Tree<Text>>) | Closed(t: Tree<Text>)
  {
    function Depth(): nat { if Opened? then Length(c) + 1 else 0 }
  }

  function Length<N>(c: Context<N>): nat { if c.Root? then 0 else Length(c.up) + 1 }

  /** One action; nothing when it would add to, or climb from, no node. */
  function Step(cursor: Cursor, a: Action): Option<Cursor> {
    match cursor
    case Nothing => (match a case Begin(n) => Some(Opened(Root, n, [])) case AddLeaf(n) => Some(Opened(Root, n, [])) case End => None)
    case Closed(_) => None
    case Opened(c, name, kids) =>
      match a
      case Begin(n) => Some(Opened(Within(c, name, kids, []), n, []))
      case AddLeaf(n) => Some(Opened(c, name, kids + [Node(n, [])]))
      case End =>
        if c.Root? then Some(Closed(Node(name, kids)))
        else Some(Opened(c.up, c.op, c.left + [Node(name, kids)] + c.right))
  }

  function Steps(cursor: Cursor, actions: seq<Action>): Option<Cursor>
    decreases |actions|
  {
    if actions == [] then Some(cursor)
    else
      match Step(cursor, actions[0])
      case None => None
      case Some(next) => Steps(next, actions[1..])
  }

  lemma {:induction false} StepsConcat(cursor: Cursor, a: seq<Action>, b: seq<Action>)
    ensures Steps(cursor, a + b) == match Steps(cursor, a) case None => None case Some(next) => Steps(next, b)
    decreases |a|
  {
    if a == [] {
      assert a + b == b;
    } else {
      assert (a + b)[1..] == a[1..] + b && (a + b)[0] == a[0];
      match Step(cursor, a[0])
      case None =>
      case Some(next) => StepsConcat(next, a[1..], b);
    }
  }

  lemma {:induction false} OneStep(cursor: Cursor, a: Action)
    ensures Steps(cursor, [a]) == Step(cursor, a)
  {
    var one := [a];
    assert one[1..] == [];
  }

  // ---------------------------------------------------------------- the actions of a printed tree

  /** The actions of a tree add it to the children of the open node. */
  lemma {:induction false} ActionsAddTree(c: Context<Text>, name: Text, kids: seq<Tree<Text>>, t: Tree<Text>)
    ensures Steps(Opened(c, name, kids), ActionsOf(t)) == Some(Opened(c, name, kids + [t]))
    decreases t
  {
    var from := Opened(c, name, kids);
    if t.kids == [] {
      OneStep(from, AddLeaf(t.op));
    } else {
      var inner := Within(c, name, kids, []);
      OneStep(from, Begin(t.op));
      ActionsAddAll(inner, t.op, [], t.kids);
      assert [] + t.kids == t.kids;
      OneStep(Opened(inner, t.op, t.kids), End);
      assert kids + [t] + [] == kids + [t];
      StepsConcat(from, [Begin(t.op)], ActionsOfAll(t.kids));
      StepsConcat(from, [Begin(t.op)] + ActionsOfAll(t.kids), [End]);
    }
  }

  lemma {:induction false} ActionsAddAll(c: Context<Text>, name: Text, kids: seq<Tree<Text>>, ts: seq<Tree<Text>>)
    ensures Steps(Opened(c, name, kids), ActionsOfAll(ts)) == Some(Opened(c, name, kids + ts))
    decreases ts
  {
    if ts == [] {
      assert kids + ts == kids;
    } else {
      ActionsAddTree(c, name, kids, ts[0]);
      ActionsAddAll(c, name, kids + [ts[0]], ts[1..]);
      StepsConcat(Opened(c, name, kids), ActionsOf(ts[0]), ActionsOfAll(ts[1..]));
      assert kids + [ts[0]] + ts[1..] == kids + ts;
    }
  }

  /** The whole tree that a cursor stands in. */
  ghost function Whole(cursor: Cursor): seq<Tree<Text>> {
    match cursor
    case Nothing => []
    case Opened(c, name, kids) => [Plug(c, Node(name, kids))]
    case Closed(t) => [t]
  }

  /** From nothing, the actions of a tree build exactly that tree. */
  lemma {:induction false} ActionsBuildTree(t: Tree<Text>)
    ensures Steps(Nothing, ActionsOf(t)).Some? && Whole(Steps(Nothing, ActionsOf(t)).value) == [t]
  {
    if t.kids == [] {
      OneStep(Nothing, AddLeaf(t.op));
    } else {
      OneStep(Nothing, Begin(t.op));
      ActionsAddAll(Root, t.op, [], t.kids);
      assert [] + t.kids == t.kids;
      OneStep(Opened(Root, t.op, t.kids), End);
      StepsConcat(Nothing, [Begin(t.op)], ActionsOfAll(t.kids));
      StepsConcat(Nothing, [Begin(t.op)] + ActionsOfAll(t.kids), [End]);
    }
  }

  // ---------------------------------------------------------------- the actions of any text

  /** From an open node at some depth, the actions lead to an open node that is
      at most `up` levels higher. */
  ghost predicate Stays(cursor: Cursor, actions: seq<Action>, up: nat) {
    var r := Steps(cursor, actions);
    cursor.Opened? && r.Some? && r.value.Opened? && r.value.Depth() + up >= cursor.Depth()
  }

  lemma {:induction false} StaysConcat(cursor: Cursor, a: seq<Action>, b: seq<Action>, up: nat)
    requires Stays(cursor, a, 0) && Stays(Steps(cursor, a).value, b, up)
    ensures Stays(cursor, a + b, up)
  {
    StepsConcat(cursor, a, b);
  }

  lemma {:induction false} BegStays(s: Text, i: nat, cursor: Cursor)
    requires i <= |s| && cursor.Opened?
    ensures Stays(cursor, ParseBeg(s, i).actions, 0)
    ensures ParseBeg(s, i).ok ==> Steps(cursor, ParseBeg(s, i).actions).value.Depth() == cursor.Depth() + 1
  {
    var beg := ParseBeg(s, i);
    if beg.ok { OneStep(cursor, beg.actions[0]); }
  }

  lemma {:induction false} TermStays(s: Text, i: nat, cursor: Cursor)
    requires i <= |s| && cursor.Opened?
    ensures Stays(cursor, ParseTerm(s, i).actions, 0)
  {
    var term := ParseTerm(s, i);
    if term.ok { OneStep(cursor, term.actions[0]); }
  }

  /** Whatever the text, an expression never leaves the open node it started in. */
  lemma {:induction false} ExprStays(s: Text, i: nat, cursor: Cursor)
    requires i <= |s| && cursor.Opened?
    ensures Stays(cursor, ParseExpr(s, i).actions, 0)
    decreases |s| - i, 1
  {
    var beg := ParseBeg(s, i);
    BegStays(s, i, cursor);
    var next := Steps(cursor, beg.actions).value;
    if beg.ok {
      CallStays(s, beg.next, next);
      var call := ParseCall(s, beg.next);
      BegThen(cursor, beg.actions, call.actions, if call.ok then 1 else 0);
      if !call.ok {
        var after := Steps(cursor, beg.actions + call.actions).value;
        TermStays(s, i, after);
        StaysConcat(cursor, beg.actions + call.actions, ParseTerm(s, i).actions, 0);
      }
    } else {
      TermStays(s, i, cursor);
      assert beg.actions + [] + ParseTerm(s, i).actions == ParseTerm(s, i).actions;
    }
  }

  lemma {:induction false} BegThen(cursor: Cursor, a: seq<Action>, b: seq<Action>, up: nat)
    requires up <= 1 && Stays(cursor, a, 0) && Steps(cursor, a).value.Depth() == cursor.Depth() + 1
    requires Stays(Steps(cursor, a).value, b, up)
    ensures Stays(cursor, a + b, 0)
  {
    StepsConcat(cursor, a, b);
  }

  /** A call that matches climbs one level, by its last action; from the
      outermost node there is nowhere to climb to. */
  lemma {:induction false} CallStays(s: Text, i: nat, cursor: Cursor)
    requires i <= |s| && cursor.Opened? && cursor.Depth() > 1
    ensures Stays(cursor, ParseCall(s, i).actions, if ParseCall(s, i).ok then 1 else 0)
    decreases |s| - i, 3
  {
    var call := ParseCall(s, i);
    BodyStays(s, i, cursor);
    if call.ok {
      var body := call.actions[..|call.actions| - 1];
      var after := Steps(cursor, body).value;
      OneStep(after, End);
      StaysConcat(cursor, body, [End], 1);
      assert body + [End] == call.actions;
    }
  }

  /** All actions of a call but the last of one that matches. */
  function Body(call: Parsed): seq<Action> {
    if call.ok && call.actions != [] then call.actions[..|call.actions| - 1] else call.actions
  }

  lemma {:induction false} BodyStays(s: Text, i: nat, cursor: Cursor)
    requires i <= |s| && cursor.Opened?
    ensures Stays(cursor, Body(ParseCall(s, i)), 0)
    ensures ParseCall(s, i).ok ==> Body(ParseCall(s, i)) + [End] == ParseCall(s, i).actions
    decreases |s| - i, 2
  {
    var first := ParseExpr(s, i);
    ExprStays(s, i, cursor);
    if first.ok {
      var more := ParseMany(s, first.next);
      ManyStay(s, first.next, Steps(cursor, first.actions).value);
      StaysConcat(cursor, first.actions, more.actions, 0);
      assert Body(ParseCall(s, i)) == first.actions + more.actions;
    }
  }

  lemma {:induction false} ManyStay(s: Text, i: nat, cursor: Cursor)
    requires i <= |s| && cursor.Opened?
    ensures Stays(cursor, ParseMany(s, i).actions, 0)
    decreases |s| - i, 2
  {
    var first := ParseExpr(s, i);
    ExprStays(s, i, cursor);
    if first.ok {
      ManyStay(s, first.next, Steps(cursor, first.actions).value);
      StaysConcat(cursor, first.actions, ParseMany(s, first.next).actions, 0);
    }
  }

  /** Whatever the text, no action of the parser meets a closed tree or climbs
      from none. */
  lemma {:induction false} ParsingNeverDerails(s: Text)
    ensures Steps(Nothing, ParseExpr(s, 0).actions).Some?
  {
    var beg, term := ParseBeg(s, 0), ParseTerm(s, 0);
    if beg.ok {
      OneStep(Nothing, beg.actions[0]);
      var root := Opened(Root, beg.actions[0].name, []);
      var call := ParseCall(s, beg.next);
      BodyStays(s, beg.next, root);
      StepsConcat(Nothing, beg.actions, Body(call));
      var after := Steps(root, Body(call)).value;
      if call.ok {
        OneStep(after, End);
        StepsConcat(Nothing, beg.actions + Body(call), [End]);
        assert beg.actions + Body(call) + [End] == beg.actions + call.actions;
      } else {
        TermStays(s, 0, after);
        StepsConcat(Nothing, beg.actions + call.actions, term.actions);
      }
    } else {
      assert beg.actions + [] + term.actions == term.actions;
      if term.ok { OneStep(Nothing, term.actions[0]); }
    }
  }

  // ---------------------------------------------------------------- the tree under construction

  /** A context of nodes that shows a context of labels. */
  ghost predicate Shows<N>(c: Context<N>, v: Context<Text>, val: map<N, Text>) {
    match (c, v)
    case (Root, Root) => true
    case (Within(_, _, _, _), Within(_, _, _, _)) =>
      && c.op in val && val[c.op] == v.op
      && Labels(c.left) <= val.Keys && Relabel(c.left, val) == v.left && c.right == [] && v.right == []
      && Shows(c.up, v.up, val)
    case _ => false
  }

  lemma {:induction false} ShowsMore<N>(c: Context<N>, v: Context<Text>, val: map<N, Text>, x: N, w: Text)
    requires Shows(c, v, val) && x !in val
    ensures Shows(c, v, val[x := w])
  {
    if c.Within? {
      RelabelMore(c.left, val, x, w);
      ShowsMore(c.up, v.up, val, x, w);
    }
  }

  /** The nodes at the cursor: the open node, the context around it, its children. */
  ghost predicate Represents<N>(cursor: Cursor, c: Context<N>, at: N, kids: seq<Tree<N>>, val: map<N, Text>) {
    && cursor.Opened? && Shows(c, cursor.c, val) && at in val && val[at] == cursor.name
    && Labels(kids) <= val.Keys && Relabel(kids, val) == cursor.kids
  }

  lemma {:induction false} BeginRepresents<N>(cursor: Cursor, c: Context<N>, at: N, kids: seq<Tree<N>>, val: map<N, Text>, x: N, w: Text)
    requires Represents(cursor, c, at, kids, val) && x !in val
    ensures Represents(Step(cursor, Begin(w)).value, Within(c, at, kids, []), x, [], val[x := w])
  {
    ShowsMore(c, cursor.c, val, x, w);
    RelabelMore(kids, val, x, w);
  }

  lemma {:induction false} LeafRepresents<N>(cursor: Cursor, c: Context<N>, at: N, kids: seq<Tree<N>>, val: map<N, Text>, x: N, w: Text)
    requires Represents(cursor, c, at, kids, val) && x !in val
    ensures Represents(Step(cursor, AddLeaf(w)).value, c, at, kids + [Node(x, [])], val[x := w])
  {
    var leaf: Tree<N> := Node(x, []);
    ShowsMore(c, cursor.c, val, x, w);
    RelabelMore(kids, val, x, w);
    Single(leaf);
    LabelsConcat(kids, [leaf]);
    RelabelConcat(kids, [leaf], val[x := w]);
    RelabelSingle(leaf, val[x := w]);
  }

  lemma {:induction false} EndRepresents<N>(cursor: Cursor, c: Context<N>, at: N, kids: seq<Tree<N>>, val: map<N, Text>)
    requires Represents(cursor, c, at, kids, val)
    ensures Labels([Node(at, kids)]) <= val.Keys && Relabel([Node(at, kids)], val) == [Node(cursor.name, cursor.kids)]
    ensures c.Root? <==> cursor.c.Root?
    ensures c.Within? ==> Represents(Step(cursor, End).value, c.up, c.op, c.left + [Node(at, kids)], val)
    ensures c.Within? ==> Plug(c, Node(at, kids)) == Plug(c.up, Node(c.op, c.left + [Node(at, kids)]))
  {
    var t := Node(at, kids);
    Single(t);
    RelabelSingle(t, val);
    if c.Within? {
      LabelsConcat(c.left, [t]);
      RelabelConcat(c.left, [t], val);
      assert c.left + [t] + c.right == c.left + [t];
      assert cursor.c.left + [Node(cursor.name, cursor.kids)] + cursor.c.right == cursor.c.left + [Node(cursor.name, cursor.kids)];
    }
  }

  lemma {:induction false} PlugShows<N>(c: Context<N>, v: Context<Text>, val: map<N, Text>, t: Tree<N>, u: Tree<Text>)
    requires Shows(c, v, val) && Labels([t]) <= val.Keys && Relabel([t], val) == [u]
    ensures Labels([Plug(c, t)]) <= val.Keys && Relabel([Plug(c, t)], val) == [Plug(v, u)]
  {
    if c.Within? {
      var t', u' := Node(c.op, c.left + [t] + c.right), Node(v.op, v.left + [u] + v.right);
      assert c.left + [t] + c.right == c.left + [t] && v.left + [u] + v.right == v.left + [u];
      LabelsConcat(c.left, [t]);
      RelabelConcat(c.left, [t], val);
      Single(t');
      RelabelSingle(t', val);
      PlugShows(c.up, v.up, val, t', u');
    }
  }

  /** The list between the sentinels holds one tree. */
  ghost function Lone<T>(head: TreeNode<T>, t: Tree<TreeNode<T>>, feet: TreeNode<T>): Forest<T> {
    [Leaf(head), t, Leaf(feet)]
  }

  lemma {:induction false} LoneSplice<T>(head: TreeNode<T>, root: TreeNode<T>, feet: TreeNode<T>, t: Tree<TreeNode<T>>)
    requires head != root
    ensures root in Labels(Lone(head, Leaf(root), feet))
    ensures Splice(Lone(head, Leaf(root), feet), root, 1, [t]) == Lone(head, t, feet)
  {
    var f := Lone(head, Leaf(root), feet);
    assert f[1..][0] == Leaf(root) && f[1..][1..] == [Leaf(feet)];
    assert Splice(f[1..], root, 1, [t]) == [t] + [Leaf(feet)];
  }

  lemma {:induction false} LoneLabels<T>(head: TreeNode<T>, t: Tree<TreeNode<T>>, feet: TreeNode<T>)
    ensures Labels(Lone(head, t, feet)) == {head, feet} + Labels([t])
    ensures Distinct(Lone(head, t, feet)) ==> head !in Labels([t]) && feet !in Labels([t]) && Distinct([t])
  {
    var f, g: Forest<T> := Lone(head, t, feet), [Leaf(feet)];
    assert f == [Leaf(head)] + ([t] + g);
    Single(Leaf(head));
    Single(Leaf(feet));
    LabelsConcat([t], g);
    LabelsConcat([Leaf(head)], [t] + g);
  }

  /** How the nodes show the tree under construction: the cursor, the nodes at
      it, and the labels of all nodes. */
  datatype View = View(cursor: Cursor, c: Context<TreeNode<Text>>, here: TreeNode<Text>, kids: Forest<Text>,
                       val: map<TreeNode<Text>, Text>)
  {
    /** The context of a node added at the cursor. */
    ghost function Around(): Context<TreeNode<Text>> {
      if cursor.Opened? then Within(c, here, kids, []) else Root
    }

    ghost predicate MayAdd() {
      if cursor.Opened? then Represents(cursor, c, here, kids, val) else cursor.Nothing? && val == map[]
    }

    ghost function Begun(x: TreeNode<Text>, w: Text): View
      requires !cursor.Closed?
    {
      View(Step(cursor, Begin(w)).value, Around(), x, [], val[x := w])
    }

    ghost function WithLeaf(x: TreeNode<Text>, w: Text): View
      requires !cursor.Closed?
    {
      if cursor.Nothing? then Begun(x, w)
      else View(Step(cursor, AddLeaf(w)).value, c, here, kids + [Leaf(x)], val[x := w])
    }

    ghost function Ended(): View
      requires cursor.Opened?
    {
      View(Step(cursor, End).value, if c.Root? then Root else c.up, if c.Root? then here else c.op,
           if c.Root? then [] else c.left + [Node(here, kids)], val)
    }
  }

  /** The forest holds what the view says, with `at` at the open node. */
  ghost predicate Holds(f: Forest<Text>, head: TreeNode<Text>, feet: TreeNode<Text>, at: TreeNode?<Text>, v: View) {
    match v.cursor
    case Nothing => f == [Leaf(head), Leaf(feet)] && at == feet && v.val == map[]
    case Opened(_, _, _) =>
      && at == v.here && Represents(v.cursor, v.c, v.here, v.kids, v.val)
      && f == Lone(head, Plug(v.c, Node(v.here, v.kids)), feet)
    case Closed(t) =>
      && at == null && |f| == 3 && f == Lone(head, f[1], feet)
      && Labels([f[1]]) <= v.val.Keys && Relabel([f[1]], v.val) == [t]
  }

  /** Holds, kept folded until Unfold asks for it. */
  ghost predicate Shown(f: Forest<Text>, head: TreeNode<Text>, feet: TreeNode<Text>, at: TreeNode?<Text>, v: View) {
    forall k {:trigger Open(k)} :: Open(k) ==> Holds(f, head, feet, at, v)
  }

  lemma {:induction false} Unfold(f: Forest<Text>, head: TreeNode<Text>, feet: TreeNode<Text>, at: TreeNode?<Text>, v: View)
    requires Shown(f, head, feet, at, v)
    ensures Holds(f, head, feet, at, v)
  {
    assert Open(0);
  }

  lemma {:induction false} InsertHolds(f: Forest<Text>, head: TreeNode<Text>, feet: TreeNode<Text>, x: TreeNode<Text>, w: Text)
    requires f == [Leaf(head), Leaf(feet)] && head != feet
    ensures feet in Labels(f) && Splice(f, feet, 0, [Leaf(x)]) == Lone(head, Leaf(x), feet)
    ensures Represents(Opened(Root, w, []), Root, x, [], map[x := w])
  {
    SentinelLinks(head, feet);
    assert f[1..] == [Leaf(feet)];
    assert Splice(f[1..], feet, 0, [Leaf(x)]) == [Leaf(x)] + [Leaf(feet)];
  }

  /** Appending a leaf at the open node of the only tree. */
  lemma {:induction false} AppendHolds(f: Forest<Text>, head: TreeNode<Text>, feet: TreeNode<Text>, c: Context<TreeNode<Text>>,
                    here: TreeNode<Text>, kids: Forest<Text>, x: TreeNode<Text>)
    requires Distinct(f) && f == Lone(head, Plug(c, Node(here, kids)), feet)
    ensures here in Labels(f) && here != head && here != feet
    ensures Below(f, here, [Leaf(x)]) == Lone(head, Plug(Within(c, here, kids, []), Leaf(x)), feet)
    ensures Plug(Within(c, here, kids, []), Leaf(x)) == Plug(c, Node(here, kids + [Leaf(x)]))
  {
    var t := Node(here, kids);
    var root := Plug(c, t).op;
    LoneLabels(head, Plug(c, t), feet);
    PlugFind(c, t);
    Single(Plug(c, t));
    LoneSplice(head, root, feet, Plug(c, t));
    LoneSplice(head, root, feet, Plug(Within(c, here, kids, []), Leaf(x)));
    GrowShape(Lone(head, Leaf(root), feet), c, here, kids, root, x);
    assert kids + [Leaf(x)] + [] == kids + [Leaf(x)];
  }

  /** The parent of the open node. */
  lemma {:induction false} ParentOfOpen(f: Forest<Text>, head: TreeNode<Text>, feet: TreeNode<Text>, c: Context<TreeNode<Text>>,
                     here: TreeNode<Text>, kids: Forest<Text>)
    requires Distinct(f) && f == Lone(head, Plug(c, Node(here, kids)), feet)
    ensures here in Labels(f)
    ensures PointersOf(f, here).parent == if c.Root? then null else c.op
  {
    var t := Plug(c, Node(here, kids));
    TopFind(f, 1);
    TopLinks(f, null, null, null, 1);
    SubtreeLinks(f, t.op, c, Node(here, kids));
  }

  ghost function Extended(head: TreeNode<Text>, feet: TreeNode<Text>, v: View, x: TreeNode<Text>): Forest<Text> {
    Lone(head, Plug(v.Around(), Leaf(x)), feet)
  }

  lemma {:induction false} BeginShown(head: TreeNode<Text>, feet: TreeNode<Text>, v: View, x: TreeNode<Text>, w: Text)
    requires v.MayAdd() && x !in v.val
    ensures Shown(Extended(head, feet, v, x), head, feet, x, v.Begun(x, w))
  {
    if v.cursor.Opened? { BeginRepresents(v.cursor, v.c, v.here, v.kids, v.val, x, w); }
    assert Holds(Extended(head, feet, v, x), head, feet, x, v.Begun(x, w));
  }

  lemma {:induction false} LeafShown(head: TreeNode<Text>, feet: TreeNode<Text>, v: View, x: TreeNode<Text>, w: Text)
    requires v.MayAdd() && x !in v.val
    ensures Shown(Extended(head, feet, v, x), head, feet, if v.cursor.Nothing? then x else v.here, v.WithLeaf(x, w))
  {
    if v.cursor.Nothing? {
      BeginShown(head, feet, v, x, w);
    } else {
      LeafRepresents(v.cursor, v.c, v.here, v.kids, v.val, x, w);
      assert v.kids + [Leaf(x)] + [] == v.kids + [Leaf(x)];
      assert Holds(Extended(head, feet, v, x), head, feet, v.here, v.WithLeaf(x, w));
    }
  }

  lemma {:induction false} LeafStep(v: View, x: TreeNode<Text>, w: Text)
    requires !v.cursor.Closed?
    ensures v.WithLeaf(x, w).val == v.val[x := w] && Step(v.cursor, AddLeaf(w)) == Some(v.WithLeaf(x, w).cursor)
  {
  }

  lemma {:induction false} EndShown(f: Forest<Text>, head: TreeNode<Text>, feet: TreeNode<Text>, v: View)
    requires Distinct(f) && v.MayAdd() && v.cursor.Opened? && f == Lone(head, Plug(v.c, Node(v.here, v.kids)), feet)
    ensures v.here in Labels(f) && Shown(f, head, feet, PointersOf(f, v.here).parent, v.Ended())
  {
    ParentOfOpen(f, head, feet, v.c, v.here, v.kids);
    EndRepresents(v.cursor, v.c, v.here, v.kids, v.val);
    assert Holds(f, head, feet, PointersOf(f, v.here).parent, v.Ended());
  }

  class TreeBuilder {
    const tr: LinkedTree<Text>
    var at: TreeNode?<Text>
    ghost var view: View

    ghost predicate Valid()
      reads this, tr, tr.nodes
    {
      && tr.Valid() && Labelled(view.val)
      && Shown(tr.shape, tr.head, tr.feet, at, view)
    }

    /** The map knows the label of every node between the sentinels. */
    ghost predicate Labelled(val: map<TreeNode<Text>, Text>)
      reads this, tr, tr.nodes
    {
      && val.Keys == tr.nodes - {tr.head, tr.feet}
      && forall m :: m in tr.nodes && m in val ==> m.data == val[m]
    }

    constructor ()
      ensures Valid() && view.cursor == Nothing && fresh(tr) && fresh(tr.nodes)
    {
      var empty := new LinkedTree("");
      tr := empty;
      at := empty.feet;
      view := View(Nothing, Root, empty.feet, [], map[]);
      new;
      SentinelLinks(tr.head, tr.feet);
      assert Holds(tr.shape, tr.head, tr.feet, at, view);
    }

    /** Whether nothing stands between the sentinels. */
    method Empty() returns (empty: bool)
      requires Valid()
      ensures empty <==> view.cursor == Nothing
    {
      empty := tr.head.nextSibling == tr.feet;
      Unfold(tr.shape, tr.head, tr.feet, at, view);
      BoundsOf(tr.shape, tr.head, tr.feet);
      TopLinks(tr.shape, null, null, null, 0);
      if !view.cursor.Nothing? { LoneLabels(tr.head, tr.shape[1], tr.feet); Single(tr.shape[1]); }
    }

    /** Adds a node to the empty tree or to the children of the open node. */
    method Add(w: Text) returns (x: TreeNode<Text>)
      requires Valid() && !view.cursor.Closed?
      modifies tr, tr.nodes
      ensures tr.Valid() && Labelled(view.val[x := w]) && Newer(old(tr.nodes), tr.nodes)
      ensures Shown(tr.shape, tr.head, tr.feet, x, view.Begun(x, w))
      ensures Shown(tr.shape, tr.head, tr.feet, if view.cursor.Nothing? then x else at, view.WithLeaf(x, w))
    {
      Unfold(tr.shape, tr.head, tr.feet, at, view);
      x := Attach(w);
      BeginShown(tr.head, tr.feet, view, x, w);
      LeafShown(tr.head, tr.feet, view, x, w);
    }

    method Attach(w: Text) returns (x: TreeNode<Text>)
      requires Valid() && !view.cursor.Closed? && Holds(tr.shape, tr.head, tr.feet, at, view)
      modifies tr, tr.nodes
      ensures tr.Valid() && x !in old(tr.nodes) && fresh(x) && tr.nodes == old(tr.nodes) + {x} && x.data == w && Kept(old(tr.nodes))
      ensures tr.shape == Extended(tr.head, tr.feet, view, x) && Labelled(view.val[x := w])
    {
      BoundsOf(tr.shape, tr.head, tr.feet);
      x := Hang(w);
    }

    method Hang(w: Text) returns (x: TreeNode<Text>)
      requires Valid() && !view.cursor.Closed? && Holds(tr.shape, tr.head, tr.feet, at, view)
      modifies tr, tr.nodes
      ensures tr.Valid() && x !in old(tr.nodes) && fresh(x) && tr.nodes == old(tr.nodes) + {x} && x.data == w && Kept(old(tr.nodes))
      ensures tr.shape == Extended(tr.head, tr.feet, view, x)
    {
      ghost var f := tr.shape;
      BoundsOf(f, tr.head, tr.feet);
      var empty := Empty();
      if empty {
        x := tr.Insert(at, w);
        InsertHolds(f, tr.head, tr.feet, x, w);
      } else {
        AppendHolds(f, tr.head, tr.feet, view.c, view.here, view.kids, view.here);
        x := tr.AppendChild(at, w);
        AppendHolds(f, tr.head, tr.feet, view.c, view.here, view.kids, x);
      }
    }

    /** Moves the cursor to where the next view shows the tree. */
    method MoveTo(to: TreeNode?<Text>, ghost next: View)
      requires tr.Valid() && Labelled(next.val) && Shown(tr.shape, tr.head, tr.feet, to, next)
      modifies this
      ensures Valid() && view == next
    {
      at := to;
      view := next;
    }

    method BeginInternal(w: Text)
      requires Valid() && !view.cursor.Closed?
      modifies this, tr, tr.nodes
      ensures Valid() && Step(old(view).cursor, Begin(w)) == Some(view.cursor) && Newer(old(tr.nodes), tr.nodes)
    {
      var x := Add(w);
      at := x;
      view := view.Begun(x, w);
    }

    method AddLeaf(w: Text)
      requires Valid() && !view.cursor.Closed?
      modifies this, tr, tr.nodes
      ensures Valid() && Step(old(view).cursor, Action.AddLeaf(w)) == Some(view.cursor) && Newer(old(tr.nodes), tr.nodes)
    {
      var empty := Empty();
      var x := Add(w);
      LeafStep(view, x, w);
      MoveTo(if empty then x else at, view.WithLeaf(x, w));
    }

    method EndInternal()
      requires Valid() && view.cursor.Opened?
      modifies this
      ensures Valid() && Step(old(view).cursor, End) == Some(view.cursor)
    {
      Unfold(tr.shape, tr.head, tr.feet, at, view);
      EndShown(tr.shape, tr.head, tr.feet, view);
      at := at.parent;
      view := view.Ended();
    }

    /** Does what the parser has set off. */
    method Perform(actions: seq<Action>)
      requires Valid() && Steps(view.cursor, actions).Some?
      modifies this, tr, tr.nodes
      ensures Valid() && Steps(old(view).cursor, actions) == Some(view.cursor)
    {
      ghost var before := tr.nodes;
      for k := 0 to |actions|
        invariant Valid() && Newer(before, tr.nodes)
        invariant Steps(view.cursor, actions[k..]) == Steps(old(view).cursor, actions)
      {
        var a := actions[k];
        Next(view.cursor, actions, k);
        if a.Begin? {
          BeginInternal(a.name);
        } else if a.AddLeaf? {
          AddLeaf(a.name);
        } else {
          EndInternal();
        }
      }
    }

    /** The trees of labels between the sentinels. */
    ghost function Contents(): seq<Tree<Text>>
      requires Valid()
      reads this, tr, tr.nodes
    {
      ContentsLabels();
      Values(tr.shape[1..|tr.shape| - 1])
    }

    lemma {:induction false} ContentsLabels()
      requires Valid()
      ensures |tr.shape| >= 2 && Labels(tr.shape[1..|tr.shape| - 1]) <= tr.nodes
    {
      var n := |tr.shape| - 1;
      SplitLabels(tr.shape, n);
      SplitLabels(tr.shape[..n], 1);
      assert tr.shape[..n][1..] == tr.shape[1..n];
    }

    /** The nodes hold exactly the tree that the cursor stands in. */
    lemma {:induction false} ContentsAreWhole()
      requires Valid()
      ensures Contents() == Whole(view.cursor)
    {
      Unfold(tr.shape, tr.head, tr.feet, at, view);
      ContentsLabels();
      if view.cursor.Nothing? {
        assert tr.shape[1..1] == [];
      } else {
        assert tr.shape[1..2] == [tr.shape[1]];
        var v := view;
        if v.cursor.Opened? {
          EndRepresents(v.cursor, v.c, v.here, v.kids, v.val);
          PlugShows(v.c, v.cursor.c, v.val, Node(v.here, v.kids), Node(v.cursor.name, v.cursor.kids));
        }
        ValuesOf([tr.shape[1]], v.val);
      }
    }
  }

  lemma {:induction false} Next(cursor: Cursor, actions: seq<Action>, k: nat)
    requires k < |actions| && Steps(cursor, actions[k..]).Some?
    ensures Step(cursor, actions[k]).Some?
    ensures Steps(cursor, actions[k..]) == Steps(Step(cursor, actions[k]).value, actions[k + 1..])
    ensures !cursor.Closed?
    ensures actions[k].End? ==> cursor.Opened?
  {
    assert actions[k..][0] == actions[k] && actions[k..][1..] == actions[k + 1..];
  }

  lemma {:induction false} ValuesOf(f: Forest<Text>, val: map<TreeNode<Text>, Text>)
    requires Labels(f) <= val.Keys && forall m :: m in Labels(f) ==> m.data == val[m]
    ensures Values(f) == Relabel(f, val)
  {
    if f != [] {
      ValuesOf(f[0].kids, val);
      ValuesOf(f[1..], val);
    }
  }

  /** The text that the parser sees. */
  function Seen(lines: seq<Text>): Text { UpToNul(Tidied(Gathered(lines, "", 0).0)) }

  /** The text as the parser gets it: cleaned up in place, and cut at its terminator. */
  method TidyText(text: Text) returns (seen: Text)
    ensures seen == UpToNul(Tidied(text))
  {
    var str := new char[|text| + 1](i requires i >= 0 => if i < |text| then text[i] else NUL);
    assert str[..|text|] == text;
    var size := Tidy(str);
    seen := UpToNul(str[..size]);
  }

  /** Reads a tree; nothing when the parentheses do not match. */
  method Read(lines: seq<Text>) returns (r: Option<TreeBuilder>)
    ensures r.Some? <==> Gathered(lines, "", 0).1 == 0
    ensures r.Some? ==> r.value.Valid() && Some(r.value.view.cursor) == Steps(Nothing, ParseExpr(Seen(lines), 0).actions)
  {
    var text, balanced := Gather(lines);
    if !balanced { return None; }
    var seen := TidyText(text);
    ParsingNeverDerails(seen);
    var b := new TreeBuilder();
    b.Perform(ParseExpr(seen, 0).actions);
    r := Some(b);
  }

  /** Reading back what was printed rebuilds the tree, whatever lines follow. */
  lemma {:induction false} PrintedIsReadBack(t: Tree<Text>, more: seq<Text>)
    requires Printable(t)
    ensures Gathered([Print(t)] + more, "", 0).1 == 0
    ensures var end := Steps(Nothing, ParseExpr(Seen([Print(t)] + more), 0).actions);
      end.Some? && Whole(end.value) == [t]
  {
    PrintedReachesParser(t, more);
    ActionsBuildTree(t);
  }

  method ReadPrinted(t: Tree<Text>, more: seq<Text>) returns (b: TreeBuilder)
    requires Printable(t)
    ensures b.Valid() && b.Contents() == [t]
  {
    PrintedIsReadBack(t, more);
    var r := Read([Print(t)] + more);
    b := r.value;
    b.ContentsAreWhole();
  }
}
