/** Exactly which trees of words are read back as themselves. */
module ReadBack {
  import opened Options
  import opened Trees
  import opened TreeCopies
  import opened TreeText
  import opened TreeReaders

  // ---------------------------------------------------------------- the names in a tree

  /** The labels that the actions bring in, in order. */
  function Names(actions: seq<Action>): seq<Text> {
    if actions == [] then [] else (if actions[0].End? then [] else [actions[0].name]) + Names(actions[1..])
  }

  lemma {:induction false} NamesConcat(a: seq<Action>, b: seq<Action>)
    ensures Names(a + b) == Names(a) + Names(b)
  {
    if a == [] {
      assert a + b == b;
    } else {
      assert (a + b)[1..] == a[1..] + b && (a + b)[0] == a[0];
      NamesConcat(a[1..], b);
    }
  }

  /** The labels of trees in pre-order. */
  function LabelsOf(ts: seq<Tree<Text>>): seq<Text> {
    if ts == [] then [] else [ts[0].op] + LabelsOf(ts[0].kids) + LabelsOf(ts[1..])
  }

  lemma {:induction false} LabelsOfConcat(a: seq<Tree<Text>>, b: seq<Tree<Text>>)
    ensures LabelsOf(a + b) == LabelsOf(a) + LabelsOf(b)
  {
    if a == [] {
      assert a + b == b;
    } else {
      assert (a + b)[1..] == a[1..] + b && (a + b)[0] == a[0];
      LabelsOfConcat(a[1..], b);
    }
  }

  lemma {:induction false} LabelsOfOne(t: Tree<Text>)
    ensures LabelsOf([t]) == [t.op] + LabelsOf(t.kids)
  {
    assert [t][1..] == [];
  }

  lemma {:induction false} NamesOfTree(t: Tree<Text>)
    ensures Names(ActionsOf(t)) == LabelsOf([t])
    decreases t
  {
    LabelsOfOne(t);
    if t.kids == [] {
      assert [AddLeaf(t.op)][1..] == [];
    } else {
      var inner := ActionsOfAll(t.kids);
      NamesOfAll(t.kids);
      NamesConcat([Begin(t.op)] + inner, [End]);
      NamesConcat([Begin(t.op)], inner);
      assert [End][1..] == [] && [Begin(t.op)][1..] == [];
    }
  }

  lemma {:induction false} NamesOfAll(ts: seq<Tree<Text>>)
    ensures Names(ActionsOfAll(ts)) == LabelsOf(ts)
    decreases ts
  {
    if ts != [] {
      NamesOfTree(ts[0]);
      NamesOfAll(ts[1..]);
      LabelsOfOne(ts[0]);
      NamesConcat(ActionsOf(ts[0]), ActionsOfAll(ts[1..]));
    }
  }

  /** Building goes on at the right edge of the tree. */
  ghost predicate AtEdge(c: Context<Text>) { c.Root? || (c.right == [] && AtEdge(c.up)) }

  ghost predicate Building(cursor: Cursor) { cursor.Opened? ==> AtEdge(cursor.c) }

  /** Labels of a context in front of its open place. */
  ghost function Ahead(c: Context<Text>): seq<Text> {
    if c.Root? then [] else Ahead(c.up) + [c.op] + LabelsOf(c.left)
  }

  lemma {:induction false} LabelsOfPlug(c: Context<Text>, t: Tree<Text>)
    requires AtEdge(c)
    ensures LabelsOf([Plug(c, t)]) == Ahead(c) + LabelsOf([t])
  {
    if c.Within? {
      var u := Node(c.op, c.left + [t] + c.right);
      assert c.left + [t] + c.right == c.left + [t];
      LabelsOfConcat(c.left, [t]);
      LabelsOfOne(u);
      LabelsOfPlug(c.up, u);
    }
  }

  /** Each action brings its label in behind those that are there. */
  lemma {:induction false} StepNames(cursor: Cursor, a: Action)
    requires Building(cursor) && Step(cursor, a).Some?
    ensures var next := Step(cursor, a).value;
            Building(next) && LabelsOf(Whole(next)) == LabelsOf(Whole(cursor)) + Names([a])
  {
    assert [a][1..] == [];
    match cursor
    case Nothing => LabelsOfOne(Node(a.name, []));
    case Opened(c, name, kids) =>
      match a {
        case Begin(n) => BeginNames(c, name, kids, n);
        case AddLeaf(n) => LeafNames(c, name, kids, n);
        case End => EndNames(c, name, kids);
      }
  }

  lemma {:induction false} BeginNames(c: Context<Text>, name: Text, kids: seq<Tree<Text>>, n: Text)
    requires AtEdge(c)
    ensures LabelsOf([Plug(Within(c, name, kids, []), Node(n, []))]) == LabelsOf([Plug(c, Node(name, kids))]) + [n]
  {
    LabelsOfPlug(c, Node(name, kids));
    LabelsOfOne(Node(name, kids));
    LabelsOfOne(Node(n, []));
    LabelsOfPlug(Within(c, name, kids, []), Node(n, []));
  }

  lemma {:induction false} LeafNames(c: Context<Text>, name: Text, kids: seq<Tree<Text>>, n: Text)
    requires AtEdge(c)
    ensures LabelsOf([Plug(c, Node(name, kids + [Node(n, [])]))]) == LabelsOf([Plug(c, Node(name, kids))]) + [n]
  {
    LabelsOfPlug(c, Node(name, kids));
    LabelsOfOne(Node(name, kids));
    LabelsOfOne(Node(n, []));
    LabelsOfConcat(kids, [Node(n, [])]);
    LabelsOfOne(Node(name, kids + [Node(n, [])]));
    LabelsOfPlug(c, Node(name, kids + [Node(n, [])]));
  }

  lemma {:induction false} EndNames(c: Context<Text>, name: Text, kids: seq<Tree<Text>>)
    requires AtEdge(c)
    ensures var next := Step(Opened(c, name, kids), End).value;
            Building(next) && Whole(next) == Whole(Opened(c, name, kids))
  {
  }

  lemma {:induction false} StepsNames(cursor: Cursor, actions: seq<Action>)
    requires Building(cursor) && Steps(cursor, actions).Some?
    ensures LabelsOf(Whole(Steps(cursor, actions).value)) == LabelsOf(Whole(cursor)) + Names(actions)
    decreases |actions|
  {
    if actions != [] {
      StepNames(cursor, actions[0]);
      StepsNames(Step(cursor, actions[0]).value, actions[1..]);
      assert actions == [actions[0]] + actions[1..];
      NamesConcat([actions[0]], actions[1..]);
    }
  }

  // ---------------------------------------------------------------- reading something else

  /** At some place the actions bring in another label. */
  ghost predicate Strays(actions: seq<Action>, x: seq<Text>) {
    exists k :: 0 <= k < |Names(actions)| && k < |x| && Names(actions)[k] != x[k]
  }

  lemma {:induction false} StraysOn(a: seq<Action>, b: seq<Action>, x: seq<Text>, y: seq<Text>)
    requires Strays(a, x)
    ensures Strays(a + b, x + y)
  {
    NamesConcat(a, b);
    var k :| 0 <= k < |Names(a)| && k < |x| && Names(a)[k] != x[k];
    assert Names(a + b)[k] == Names(a)[k] && (x + y)[k] == x[k];
  }

  lemma {:induction false} StraysLater(p: seq<Action>, a: seq<Action>, x: seq<Text>)
    requires Strays(a, x)
    ensures Strays(p + a, Names(p) + x)
  {
    NamesConcat(p, a);
    var k :| 0 <= k < |Names(a)| && k < |x| && Names(a)[k] != x[k];
    var n := |Names(p)| + k;
    assert Names(p + a)[n] == Names(a)[k] && (Names(p) + x)[n] == x[k];
  }

  // Folded like the facts about reading, so that the grammar is unrolled in the few
  // lemmas that look into it.

  predicate Look(k: nat) { true }

  ghost predicate StraysExpr(s: Text, i: nat, x: seq<Text>) {
    forall k {:trigger Look(k)} :: Look(k) ==> i <= |s| && Strays(ParseExpr(s, i).actions, x)
  }

  ghost predicate StraysCall(s: Text, i: nat, x: seq<Text>) {
    forall k {:trigger Look(k)} :: Look(k) ==> i <= |s| && Strays(ParseCall(s, i).actions, x)
  }

  ghost predicate StraysMany(s: Text, i: nat, x: seq<Text>) {
    forall k {:trigger Look(k)} :: Look(k) ==> i <= |s| && Strays(ParseMany(s, i).actions, x)
  }

  lemma {:induction false} LeafStrays(s: Text, i: nat, w: Text)
    requires IsWord(w) && TreeText.Stands(s, i, w) && Delimited(s, i + |w|) && TermEnd(s, i) != i + |w|
    ensures StraysExpr(s, i, [w])
  {
    WordStands(s, i, w);
    var to := TermEnd(s, i);
    var leaf := AddLeaf(s[i..to]);
    assert !ParseBeg(s, i).ok;
    assert i < to;
    assert ParseTerm(s, i) == Parsed(true, to, [leaf]);
    assert ParseExpr(s, i).actions == [leaf] by { assert [] + [] + [leaf] == [leaf]; }
    assert Names([leaf]) == [leaf.name] by { assert [leaf][1..] == []; }
    assert |leaf.name| != |w|;
    assert Names([leaf])[0] != [w][0];
    assert i <= |s| && Strays(ParseExpr(s, i).actions, [w]);
  }

  lemma {:induction false} ExprStrays(s: Text, i: nat, j: nat, w: Text, x: seq<Text>)
    requires IsWord(w) && TreeText.Stands(s, i, w + "(") && j == i + |w| + 1 && StraysCall(s, j, x)
    ensures StraysExpr(s, i, [w] + x)
  {
    assert Look(0);
    StandsSplit(s, i, w, "(");
    assert s[i + |w|] == s[i + |w|..i + |w| + 1][0] == '(';
    WordStands(s, i, w);
    var call, term, beg := ParseCall(s, j), ParseTerm(s, i), [Begin(w)];
    assert ParseBeg(s, i) == Parsed(true, j, beg);
    assert Names(beg) == [w] by { assert beg[1..] == []; }
    StraysLater(beg, call.actions, x);
    StraysOn(beg + call.actions, term.actions, [w] + x, []);
    assert [w] + x + [] == [w] + x;
    assert ParseExpr(s, i).actions == beg + call.actions + (if call.ok then [] else term.actions) by {
      assert beg + call.actions + [] == beg + call.actions;
    }
    assert i <= |s| && Strays(ParseExpr(s, i).actions, [w] + x);
  }

  lemma {:induction false} CallStraysFirst(s: Text, i: nat, x: seq<Text>, y: seq<Text>)
    requires StraysExpr(s, i, x)
    ensures StraysCall(s, i, x + y)
  {
    assert Look(0);
    var first := ParseExpr(s, i);
    var behind := if first.ok then ParseMany(s, first.next).actions + (if ParseCall(s, i).ok then [End] else []) else [];
    StraysOn(first.actions, behind, x, y);
    assert ParseCall(s, i).actions == first.actions + behind;
    assert i <= |s| && Strays(ParseCall(s, i).actions, x + y);
  }

  lemma {:induction false} CallStraysLater(s: Text, i: nat, j: nat, first: seq<Action>, x: seq<Text>)
    requires ReadsExpr(s, i, j, first) && StraysMany(s, j, x)
    ensures StraysCall(s, i, Names(first) + x)
  {
    OpenUp(s, i, j, first);
    assert Look(0);
    var more := ParseMany(s, j).actions;
    var behind := if ParseCall(s, i).ok then [End] else [];
    StraysLater(first, more, x);
    StraysOn(first + more, behind, Names(first) + x, []);
    assert Names(first) + x + [] == Names(first) + x;
    assert ParseCall(s, i).actions == first + more + behind;
    assert i <= |s| && Strays(ParseCall(s, i).actions, Names(first) + x);
  }

  lemma {:induction false} ManyStraysFirst(s: Text, i: nat, x: seq<Text>, y: seq<Text>)
    requires StraysExpr(s, i, x)
    ensures StraysMany(s, i, x + y)
  {
    assert Look(0);
    var first := ParseExpr(s, i);
    var behind := if first.ok then ParseMany(s, first.next).actions else [];
    StraysOn(first.actions, behind, x, y);
    assert ParseMany(s, i).actions == first.actions + behind;
    assert i <= |s| && Strays(ParseMany(s, i).actions, x + y);
  }

  lemma {:induction false} ManyStraysLater(s: Text, i: nat, j: nat, first: seq<Action>, x: seq<Text>)
    requires ReadsExpr(s, i, j, first) && StraysMany(s, j, x)
    ensures StraysMany(s, i, Names(first) + x)
  {
    OpenUp(s, i, j, first);
    assert Look(0);
    StraysLater(first, ParseMany(s, j).actions, x);
    assert i <= |s| && Strays(ParseMany(s, i).actions, Names(first) + x);
  }

  lemma {:induction false} SpaceStrays(s: Text, i: nat, x: seq<Text>)
    requires i < |s| && IsSpace(s[i]) && StraysExpr(s, i + 1, x)
    ensures StraysExpr(s, i, x)
  {
    assert Look(0);
    assert SkipSpaces(s, i) == SkipSpaces(s, i + 1);
    SkippedOutside(s, i);
    assert ParseTerm(s, i).actions == ParseTerm(s, i + 1).actions;
    assert ParseExpr(s, i).actions == ParseExpr(s, i + 1).actions;
    assert i <= |s| && Strays(ParseExpr(s, i).actions, x);
  }

  lemma {:induction false} Folded(s: Text, i: nat, t: Tree<Text>)
    requires Fits(s, i, t)
    ensures Fit(s, i, t)
  {
  }

  predicate Peek(k: nat) { true }

  /** Words, one of which is a leaf that is not read to its own end. */
  ghost predicate Unfit(s: Text, i: nat, t: Tree<Text>) {
    forall k {:trigger Peek(k)} :: Peek(k) ==> Worded(t) && !Fits(s, i, t)
  }

  ghost predicate UnfitAll(s: Text, i: nat, ts: seq<Tree<Text>>) {
    forall k {:trigger Peek(k)} :: Peek(k) ==> AllWorded(ts) && !FitsAll(s, i, ts)
  }

  lemma {:induction false} UnfitKids(s: Text, i: nat, t: Tree<Text>)
    requires Unfit(s, i, t)
    ensures IsWord(t.op)
    ensures if t.kids == [] then i <= |s| ==> TermEnd(s, i) != i + |t.op| else UnfitAll(s, i + |t.op| + 1, t.kids)
  {
    assert Peek(0);
  }

  /** The first of several trees that do not all fit is to blame, or the others are. */
  lemma {:induction false} UnfitParts(s: Text, i: nat, ts: seq<Tree<Text>>) returns (fits: bool)
    requires UnfitAll(s, i, ts) && ts != []
    ensures LabelsOf(ts) == LabelsOf([ts[0]]) + LabelsOf(ts[1..])
    ensures if fits then Fit(s, i, ts[0]) && ts[1..] != [] && UnfitAll(s, i + |Print(ts[0])| + 1, ts[1..]) else Unfit(s, i, ts[0])
  {
    assert Peek(0);
    LabelsOfOne(ts[0]);
    FitsParts(s, i, ts);
    fits := Fits(s, i, ts[0]);
  }

  /** A printed tree of words one of whose leaves is not read to its own end is read
      as something else. */
  lemma {:induction false} Misread(s: Text, i: nat, t: Tree<Text>)
    requires Unfit(s, i, t) && TreeText.Stands(s, i, Print(t)) && Delimited(s, i + |Print(t)|)
    ensures StraysExpr(s, i, LabelsOf([t]))
    decreases t, 2
  {
    UnfitKids(s, i, t);
    LabelsOfOne(t);
    if t.kids == [] {
      LeafStrays(s, i, t.op);
      assert [t.op] + [] == [t.op];
    } else {
      CallStands(s, i, t.op, PrintAll(t.kids));
      InnerMisread(s, i, i + |t.op| + 1, t.op, t.kids);
    }
  }

  lemma {:induction false} InnerMisread(s: Text, i: nat, at: nat, w: Text, kids: seq<Tree<Text>>)
    requires IsWord(w) && at == i + |w| + 1 && TreeText.Stands(s, i, w + "(")
    requires kids != [] && UnfitAll(s, at, kids) && TreeText.Stands(s, at, PrintAll(kids))
    requires at + |PrintAll(kids)| < |s| && s[at + |PrintAll(kids)|] == ')'
    ensures StraysExpr(s, i, [w] + LabelsOf(kids))
    decreases kids, 4
  {
    CallMisread(s, at, kids);
    ExprStrays(s, i, at, w, LabelsOf(kids));
  }

  lemma {:induction false} CallMisread(s: Text, i: nat, ts: seq<Tree<Text>>)
    requires UnfitAll(s, i, ts) && ts != [] && TreeText.Stands(s, i, PrintAll(ts))
    requires i + |PrintAll(ts)| < |s| && s[i + |PrintAll(ts)|] == ')'
    ensures StraysCall(s, i, LabelsOf(ts))
    decreases ts, 3
  {
    var fits := UnfitParts(s, i, ts);
    FirstStands(s, i, ts);
    if fits {
      RestStands(s, i, ts);
      CallMisreadLater(s, i, i + |Print(ts[0])|, i + |Print(ts[0])| + 1, ts[0], ts[1..]);
    } else {
      Misread(s, i, ts[0]);
      CallStraysFirst(s, i, LabelsOf([ts[0]]), LabelsOf(ts[1..]));
    }
  }

  lemma {:induction false} CallMisreadLater(s: Text, i: nat, j: nat, at: nat, t: Tree<Text>, rest: seq<Tree<Text>>)
    requires Fit(s, i, t) && TreeText.Stands(s, i, Print(t)) && Delimited(s, j) && j == i + |Print(t)|
    requires at == j + 1 && rest != [] && UnfitAll(s, at, rest)
    requires j < |s| && s[j] == ' ' && TreeText.Stands(s, at, PrintAll(rest))
    requires at + |PrintAll(rest)| < |s| && s[at + |PrintAll(rest)|] == ')'
    ensures StraysCall(s, i, LabelsOf([t]) + LabelsOf(rest))
    decreases rest, 4
  {
    FitReads(s, i, t);
    NamesOfTree(t);
    ManyMisread(s, j, at, rest);
    CallStraysLater(s, i, j, ActionsOf(t), LabelsOf(rest));
  }

  lemma {:induction false} ManyMisread(s: Text, i: nat, at: nat, ts: seq<Tree<Text>>)
    requires at == i + 1 && UnfitAll(s, at, ts) && ts != []
    requires i < |s| && s[i] == ' ' && TreeText.Stands(s, at, PrintAll(ts))
    requires at + |PrintAll(ts)| < |s| && s[at + |PrintAll(ts)|] == ')'
    ensures StraysMany(s, i, LabelsOf(ts))
    decreases ts, 3
  {
    var fits := UnfitParts(s, at, ts);
    FirstStands(s, at, ts);
    if fits {
      RestStands(s, at, ts);
      ManyMisreadLater(s, i, at, at + |Print(ts[0])|, at + |Print(ts[0])| + 1, ts[0], ts[1..]);
    } else {
      Misread(s, at, ts[0]);
      SpaceStrays(s, i, LabelsOf([ts[0]]));
      ManyStraysFirst(s, i, LabelsOf([ts[0]]), LabelsOf(ts[1..]));
    }
  }

  lemma {:induction false} ManyMisreadLater(s: Text, i: nat, from: nat, j: nat, at: nat, t: Tree<Text>, rest: seq<Tree<Text>>)
    requires from == i + 1 && i < |s| && s[i] == ' '
    requires Fit(s, from, t) && TreeText.Stands(s, from, Print(t)) && Delimited(s, j) && j == from + |Print(t)|
    requires at == j + 1 && rest != [] && UnfitAll(s, at, rest)
    requires j < |s| && s[j] == ' ' && TreeText.Stands(s, at, PrintAll(rest))
    requires at + |PrintAll(rest)| < |s| && s[at + |PrintAll(rest)|] == ')'
    ensures StraysMany(s, i, LabelsOf([t]) + LabelsOf(rest))
    decreases rest, 4
  {
    FitReads(s, from, t);
    SpaceSkipped(s, i, j, ActionsOf(t));
    NamesOfTree(t);
    ManyMisread(s, j, at, rest);
    ManyStraysLater(s, i, j, ActionsOf(t), LabelsOf(rest));
  }

  // ---------------------------------------------------------------- which leaves fit

  /** A leaf label that is read to its own end, where a quote follows later or not: one
      that opens a quoted message ends with the first quote behind the opening, or
      there is none, there and later. */
  predicate LeafFits(w: Text, later: bool) {
    Message <= w ==> Unquoted(w) || (!later && '"' !in w[|Message|..])
  }

  predicate HasQuote(t: Tree<Text>) { '"' in t.op || HasQuoteAll(t.kids) }

  predicate HasQuoteAll(ts: seq<Tree<Text>>) { ts != [] && (HasQuote(ts[0]) || HasQuoteAll(ts[1..])) }

  /** All leaves fit, where a quote follows behind the tree or not. */
  predicate Quoted(t: Tree<Text>, later: bool)
    decreases t
  {
    if t.kids == [] then LeafFits(t.op, later) else QuotedAll(t.kids, later)
  }

  predicate QuotedAll(ts: seq<Tree<Text>>, later: bool)
    decreases ts
  {
    ts == [] || (Quoted(ts[0], later || HasQuoteAll(ts[1..])) && QuotedAll(ts[1..], later))
  }

  lemma {:induction false} QuoteInBoth(u: Text, v: Text)
    ensures '"' in u + v <==> '"' in u || '"' in v
  {
    if '"' in u {
      var k :| 0 <= k < |u| && u[k] == '"';
      assert (u + v)[k] == '"';
    }
    if '"' in v {
      var k :| 0 <= k < |v| && v[k] == '"';
      assert (u + v)[|u| + k] == '"';
    }
  }

  lemma {:induction false} QuoteInPrint(t: Tree<Text>)
    ensures '"' in Print(t) <==> HasQuote(t)
    decreases t
  {
    if t.kids != [] {
      var inner := PrintAll(t.kids);
      QuoteInPrintAll(t.kids);
      QuoteInBoth(t.op + "(" + inner, ")");
      QuoteInBoth(t.op + "(", inner);
      QuoteInBoth(t.op, "(");
    }
  }

  lemma {:induction false} QuoteInPrintAll(ts: seq<Tree<Text>>)
    ensures '"' in PrintAll(ts) <==> HasQuoteAll(ts)
    decreases ts
  {
    if ts != [] {
      QuoteInPrint(ts[0]);
      QuoteInPrintAll(ts[1..]);
      if |ts| > 1 {
        QuoteInBoth(Print(ts[0]) + " ", PrintAll(ts[1..]));
        QuoteInBoth(Print(ts[0]), " ");
      }
    }
  }

  lemma {:induction false} LeafFitsExactly(s: Text, i: nat, w: Text)
    requires IsWord(w) && TreeText.Stands(s, i, w) && Delimited(s, i + |w|)
    ensures TermEnd(s, i) == i + |w| <==> LeafFits(w, '"' in s[i + |w|..])
  {
    WordStands(s, i, w);
    assert forall k | 0 <= k < |w| :: s[i + k] == w[k];
    if Message <= s[i..] { MessageInside(s, i, w); }
    if Message <= w {
      assert Message <= s[i..] by { assert forall k | 0 <= k < |Message| :: s[i..][k] == w[k]; }
      QuoteFits(s, i, w, QuoteEnd(s, i + |Message|));
    }
  }

  lemma {:induction false} QuoteFits(s: Text, i: nat, w: Text, q: nat)
    requires Message <= w && i + |w| <= |s| && (forall k | 0 <= k < |w| :: s[i + k] == w[k]) && q == QuoteEnd(s, i + |Message|)
    ensures q < |s| ==> (q + 1 == i + |w| <==> Unquoted(w))
    ensures '"' in w[|Message|..] || '"' in s[i + |w|..] <==> q < |s|
    ensures Unquoted(w) ==> q < |s|
  {
    var n, later := |Message|, s[i + |w|..];
    assert forall k | i + n <= k < q :: s[k] != '"';
    if q < i + |w| {
      assert w[n..][q - i - n] == s[q] == '"';
    } else if q < |s| {
      assert later[q - i - |w|] == s[q] == '"';
    } else {
      assert forall k | n <= k < |w| :: w[k] != '"';
      assert forall k | 0 <= k < |later| :: later[k] == s[i + |w| + k] != '"';
    }
    if Unquoted(w) { assert s[i + |w| - 1] == '"'; }
    if q < |s| && q + 1 == i + |w| {
      assert forall k | n <= k < |w| - 1 :: w[k] != '"';
    }
  }

  /** Where t is printed its leaves are read to their ends if and only if they fit. */
  lemma {:induction false} FitsExactly(s: Text, i: nat, t: Tree<Text>)
    requires Worded(t) && TreeText.Stands(s, i, Print(t)) && Delimited(s, i + |Print(t)|)
    ensures Fits(s, i, t) <==> Quoted(t, '"' in s[i + |Print(t)|..])
    decreases t, 2
  {
    if t.kids == [] {
      LeafFitsExactly(s, i, t.op);
    } else {
      var at := i + |t.op| + 1;
      var close := at + |PrintAll(t.kids)|;
      CallStands(s, i, t.op, PrintAll(t.kids));
      AllFitExactly(s, at, close, t.kids);
      assert s[close..] == [')'] + s[close + 1..];
      QuoteInBoth([')'], s[close + 1..]);
    }
  }

  lemma {:induction false} AllFitExactly(s: Text, i: nat, end: nat, ts: seq<Tree<Text>>)
    requires ts != [] && AllWorded(ts) && TreeText.Stands(s, i, PrintAll(ts))
    requires end == i + |PrintAll(ts)| < |s| && s[end] == ')'
    ensures FitsAll(s, i, ts) <==> QuotedAll(ts, '"' in s[end..])
    decreases ts, 1
  {
    FirstStands(s, i, ts);
    FitsParts(s, i, ts);
    FitsExactly(s, i, ts[0]);
    QuoteBehindFirst(s, i, ts);
    if ts[1..] != [] {
      RestStands(s, i, ts);
      RestLength(ts);
      AllFitExactly(s, i + |Print(ts[0])| + 1, end, ts[1..]);
    }
  }

  lemma {:induction false} RestLength(ts: seq<Tree<Text>>)
    requires ts != [] && ts[1..] != []
    ensures |PrintAll(ts)| == |Print(ts[0])| + 1 + |PrintAll(ts[1..])|
  {
    PrintAllIs(ts);
  }

  lemma {:induction false} QuoteBehindFirst(s: Text, i: nat, ts: seq<Tree<Text>>)
    requires ts != [] && TreeText.Stands(s, i, PrintAll(ts))
    ensures i + |Print(ts[0])| <= |s| && i + |PrintAll(ts)| <= |s|
    ensures '"' in s[i + |Print(ts[0])|..] <==> '"' in s[i + |PrintAll(ts)|..] || HasQuoteAll(ts[1..])
  {
    var first, more := Print(ts[0]), MorePrinted(ts[1..]);
    PrintAllIs(ts);
    QuoteInPrintAll(ts[1..]);
    if ts[1..] != [] { QuoteInBoth(" ", PrintAll(ts[1..])); }
    QuoteBehind(s, i, first, more);
  }

  lemma {:induction false} QuoteBehind(s: Text, i: nat, u: Text, v: Text)
    requires TreeText.Stands(s, i, u + v)
    ensures i + |u| + |v| <= |s| && ('"' in s[i + |u|..] <==> '"' in v || '"' in s[i + |u| + |v|..])
  {
    StandsSplit(s, i, u, v);
    assert s[i + |u|..] == v + s[i + |u| + |v|..];
    QuoteInBoth(v, s[i + |u| + |v|..]);
  }

  // ---------------------------------------------------------------- the result

  /** A printed tree of words, whatever lines follow, is read back as itself if and only
      if all its leaves fit. */
  lemma {:induction false} PrintedIsReadBackExactly(t: Tree<Text>, more: seq<Text>)
    requires Worded(t)
    ensures Gathered([Print(t)] + more, "", 0).1 == 0
    ensures var end := Steps(Nothing, ParseExpr(Seen([Print(t)] + more), 0).actions);
            end.Some? && (Whole(end.value) == [t] <==> Quoted(t, false))
  {
    WordsReachParser(t, more);
    var s := Print(t) + " ";
    assert TreeText.Stands(s, 0, Print(t)) && s[|Print(t)|..] == " ";
    FitsExactly(s, 0, t);
    ReadExactly(s, t);
  }

  lemma {:induction false} ReadExactly(s: Text, t: Tree<Text>)
    requires Worded(t) && TreeText.Stands(s, 0, Print(t)) && Delimited(s, |Print(t)|)
    ensures var end := Steps(Nothing, ParseExpr(s, 0).actions); end.Some? && (Whole(end.value) == [t] <==> Fits(s, 0, t))
  {
    ParsingNeverDerails(s);
    if Fits(s, 0, t) {
      FitIsItself(s, t);
    } else {
      Blamed(s, 0, t);
      Misread(s, 0, t);
      StrayedIsOther(s, t);
    }
  }

  lemma {:induction false} Blamed(s: Text, i: nat, t: Tree<Text>)
    requires Worded(t) && !Fits(s, i, t)
    ensures Unfit(s, i, t)
  {
  }

  lemma {:induction false} FitIsItself(s: Text, t: Tree<Text>)
    requires Fits(s, 0, t) && TreeText.Stands(s, 0, Print(t)) && Delimited(s, |Print(t)|)
    ensures var end := Steps(Nothing, ParseExpr(s, 0).actions); end.Some? && Whole(end.value) == [t]
  {
    Folded(s, 0, t);
    FitReads(s, 0, t);
    OpenUp(s, 0, |Print(t)|, ActionsOf(t));
    ActionsBuildTree(t);
  }

  lemma {:induction false} StrayedIsOther(s: Text, t: Tree<Text>)
    requires StraysExpr(s, 0, LabelsOf([t])) && Steps(Nothing, ParseExpr(s, 0).actions).Some?
    ensures Whole(Steps(Nothing, ParseExpr(s, 0).actions).value) != [t]
  {
    assert Look(0);
    StepsNames(Nothing, ParseExpr(s, 0).actions);
    assert [] + Names(ParseExpr(s, 0).actions) == Names(ParseExpr(s, 0).actions);
  }

  /** A label that opens a quoted message and closes it before its end. */
  predicate CutShort(w: Text) {
    Message <= w && exists k :: |Message| <= k < |w| - 1 && w[k] == '"'
  }

  /** A lone word is read back as itself if and only if it does not go on behind a
      quoted message. */
  lemma {:induction false} LoneWordReadBack(w: Text)
    requires IsWord(w)
    ensures var end := Steps(Nothing, ParseExpr(w + " ", 0).actions);
      end.Some? && (Whole(end.value) == [Node(w, [])] <==> !CutShort(w))
  {
    var s, t := w + " ", Node(w, []);
    assert TreeText.Stands(s, 0, Print(t)) && s[|w|..] == " ";
    FitsExactly(s, 0, t);
    ReadExactly(s, t);
    CutShortExactly(w);
  }

  lemma {:induction false} CutShortExactly(w: Text)
    ensures LeafFits(w, false) <==> !CutShort(w)
  {
    if Message <= w {
      var n := |Message|;
      assert forall k | n <= k < |w| :: w[n..][k - n] == w[k];
    }
  }
}
