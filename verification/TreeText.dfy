/** Trees of labels as text: the printer, the clean-up of blanks, and the grammar. */
module TreeText {
  import opened Trees

  type Text = seq<char>

  const NUL: char := '\0'

  predicate IsBlank(c: char) { c == ' ' || c == '\t' }

  /** What the scanner skips between tokens. */
  predicate IsSpace(c: char) { IsBlank(c) || c == '\n' || c == '\U{000B}' || c == '\U{000C}' || c == '\r' }

  predicate IsParen(c: char) { c == '(' || c == ')' }

  predicate IsWordChar(c: char) { !IsParen(c) && !IsSpace(c) }

  function At(s: Text, i: nat): char { if i < |s| then s[i] else NUL }

  // ---------------------------------------------------------------- printing

  function Print(t: Tree<Text>): Text {
    if t.kids == [] then t.op else t.op + "(" + PrintAll(t.kids) + ")"
  }

  /** The texts of the trees, with a blank between neighbours. */
  function PrintAll(ts: seq<Tree<Text>>): Text {
    if ts == [] then ""
    else if |ts| == 1 then Print(ts[0])
    else Print(ts[0]) + " " + PrintAll(ts[1..])
  }

  /** A label that the reader takes for one word: not empty, and without
      parentheses, spaces and the terminating character. */
  predicate IsWord(w: Text) {
    w != [] && forall i | 0 <= i < |w| :: IsWordChar(w[i]) && w[i] != NUL
  }

  const Message: Text := "message:\""

  /** A leaf label that the reader would not take for a quoted message, or for
      exactly itself when it does. */
  predicate Unquoted(w: Text) {
    Message <= w ==> |w| > |Message| && w[|w| - 1] == '"' && forall i | |Message| <= i < |w| - 1 :: w[i] != '"'
  }

  predicate Printable(t: Tree<Text>) {
    IsWord(t.op) && (t.kids == [] ==> Unquoted(t.op)) && forall i | 0 <= i < |t.kids| :: Printable(t.kids[i])
  }

  /** Every label is a word. */
  predicate Worded(t: Tree<Text>) {
    IsWord(t.op) && forall i | 0 <= i < |t.kids| :: Worded(t.kids[i])
  }

  predicate AllWorded(ts: seq<Tree<Text>>) { forall k | 0 <= k < |ts| :: Worded(ts[k]) }

  lemma {:induction false} PrintableIsWorded(t: Tree<Text>)
    requires Printable(t)
    ensures Worded(t)
  {
    forall i | 0 <= i < |t.kids| ensures Worded(t.kids[i]) { PrintableIsWorded(t.kids[i]); }
  }

  // ---------------------------------------------------------------- the grammar

  /** What the parser does to the tree under construction. */
  datatype Action = Begin(name: Text) | End | AddLeaf(name: Text)

  /** Where a parse ends, whether it matched, and the actions it has set off,
      which stay done when it fails. */
  datatype Parsed = Parsed(ok: bool, next: nat, actions: seq<Action>)

  function SkipSpaces(s: Text, i: nat): (j: nat)
    requires i <= |s|
    ensures i <= j <= |s| && (j < |s| ==> !IsSpace(s[j]))
    decreases |s| - i
  {
    if i < |s| && IsSpace(s[i]) then SkipSpaces(s, i + 1) else i
  }

  function WordEnd(s: Text, i: nat): (j: nat)
    requires i <= |s|
    ensures i <= j <= |s| && (j < |s| ==> !IsWordChar(s[j])) && forall k | i <= k < j :: IsWordChar(s[k])
    decreases |s| - i
  {
    if i < |s| && IsWordChar(s[i]) then WordEnd(s, i + 1) else i
  }

  function QuoteEnd(s: Text, i: nat): (j: nat)
    requires i <= |s|
    ensures i <= j <= |s| && (j < |s| ==> s[j] == '"') && forall k | i <= k < j :: s[k] != '"'
    decreases |s| - i
  {
    if i < |s| && s[i] != '"' then QuoteEnd(s, i + 1) else i
  }

  /** A label directly followed by an open parenthesis. */
  function ParseBeg(s: Text, i: nat): (p: Parsed)
    requires i <= |s|
    ensures p.ok ==> i < p.next <= |s|
  {
    var from := SkipSpaces(s, i);
    var to := WordEnd(s, from);
    if from < to < |s| && s[to] == '(' then Parsed(true, to + 1, [Begin(s[from..to])]) else Parsed(false, i, [])
  }

  /** Where a term that starts here ends. */
  function TermEnd(s: Text, from: nat): (to: nat)
    requires from <= |s|
    ensures from <= to <= |s|
  {
    var quote := if Message <= s[from..] then QuoteEnd(s, from + |Message|) else |s|;
    if quote < |s| then quote + 1 else WordEnd(s, from)
  }

  /** A quoted message or a word. */
  function ParseTerm(s: Text, i: nat): (p: Parsed)
    requires i <= |s|
    ensures p.ok ==> i < p.next <= |s|
  {
    var from := SkipSpaces(s, i);
    var to := TermEnd(s, from);
    if from < to then Parsed(true, to, [AddLeaf(s[from..to])]) else Parsed(false, i, [])
  }

  function ParseExpr(s: Text, i: nat): (p: Parsed)
    requires i <= |s|
    ensures p.ok ==> i < p.next <= |s|
    decreases |s| - i, 1
  {
    var beg := ParseBeg(s, i);
    var call := if beg.ok then ParseCall(s, beg.next) else beg;
    if beg.ok && call.ok then Parsed(true, call.next, beg.actions + call.actions)
    else
      var term := ParseTerm(s, i);
      Parsed(term.ok, term.next, beg.actions + (if beg.ok then call.actions else []) + term.actions)
  }

  /** One or more expressions and a close parenthesis. */
  function ParseCall(s: Text, i: nat): (p: Parsed)
    requires i <= |s|
    ensures p.ok ==> i < p.next <= |s|
    decreases |s| - i, 3
  {
    var first := ParseExpr(s, i);
    if !first.ok then first
    else
      var more := ParseMany(s, first.next);
      var close := SkipSpaces(s, more.next);
      var actions := first.actions + more.actions;
      if close < |s| && s[close] == ')' then Parsed(true, close + 1, actions + [End]) else Parsed(false, i, actions)
  }

  /** As many expressions as there are. */
  function ParseMany(s: Text, i: nat): (p: Parsed)
    requires i <= |s|
    ensures p.ok && i <= p.next <= |s|
    decreases |s| - i, 2
  {
    var first := ParseExpr(s, i);
    if !first.ok then Parsed(true, i, first.actions)
    else
      var more := ParseMany(s, first.next);
      Parsed(true, more.next, first.actions + more.actions)
  }

  /** The actions that build t. */
  function ActionsOf(t: Tree<Text>): seq<Action> {
    if t.kids == [] then [AddLeaf(t.op)] else [Begin(t.op)] + ActionsOfAll(t.kids) + [End]
  }

  function ActionsOfAll(ts: seq<Tree<Text>>): seq<Action> {
    if ts == [] then [] else ActionsOf(ts[0]) + ActionsOfAll(ts[1..])
  }

  // ---------------------------------------------------------------- parsing what was printed

  /** In s, the text w stands at i. */
  predicate Stands(s: Text, i: nat, w: Text) {
    i + |w| <= |s| && s[i..i + |w|] == w
  }

  lemma {:induction false} StandsSplit(s: Text, i: nat, v: Text, w: Text)
    ensures Stands(s, i, v + w) <==> Stands(s, i, v) && Stands(s, i + |v|, w)
  {
    if Stands(s, i, v + w) {
      var u := s[i..i + |v + w|];
      assert s[i..i + |v|] == u[..|v|] == v;
      assert s[i + |v|..i + |v| + |w|] == u[|v|..] == w;
    }
    if Stands(s, i, v) && Stands(s, i + |v|, w) {
      assert s[i..i + |v + w|] == s[i..i + |v|] + s[i + |v|..i + |v| + |w|];
    }
  }

  lemma {:induction false} WordStands(s: Text, i: nat, w: Text)
    requires IsWord(w) && Stands(s, i, w) && (i + |w| < |s| ==> !IsWordChar(s[i + |w|]))
    ensures SkipSpaces(s, i) == i && WordEnd(s, i) == i + |w| && s[i..i + |w|] == w
  {
    assert forall k | i <= k < i + |w| :: s[k] == w[k - i];
    WordEnds(s, i, i + |w|);
  }

  lemma {:induction false} WordEnds(s: Text, i: nat, n: nat)
    requires i <= n <= |s| && (forall k | i <= k < n :: IsWordChar(s[k])) && (n < |s| ==> !IsWordChar(s[n]))
    ensures WordEnd(s, i) == n && (i < n ==> SkipSpaces(s, i) == i)
    decreases n - i
  {
    if i < n { WordEnds(s, i + 1, n); }
  }

  lemma {:induction false} LeafParses(s: Text, i: nat, w: Text)
    requires IsWord(w) && Stands(s, i, w) && TermEnd(s, i) == i + |w|
    requires i + |w| < |s| ==> s[i + |w|] == ')' || IsSpace(s[i + |w|])
    ensures ParseExpr(s, i) == Parsed(true, i + |w|, [AddLeaf(w)])
  {
    WordStands(s, i, w);
    assert !ParseBeg(s, i).ok;
    assert ParseTerm(s, i) == Parsed(true, i + |w|, [AddLeaf(w)]);
  }

  lemma {:induction false} LeafEnds(s: Text, i: nat, w: Text)
    requires IsWord(w) && Unquoted(w) && Stands(s, i, w) && WordEnd(s, i) == i + |w|
    requires i + |w| < |s| ==> s[i + |w|] == ')' || IsSpace(s[i + |w|])
    ensures TermEnd(s, i) == i + |w|
  {
    if Message <= s[i..] {
      MessageInside(s, i, w);
      assert forall k | 0 <= k < |w| :: s[i + k] == w[k];
      assert s[i + |w| - 1] == '"';
    }
  }

  /** A word at the start of which a message stands holds all of its opening. */
  lemma {:induction false} MessageInside(s: Text, i: nat, w: Text)
    requires Stands(s, i, w) && i + |w| <= |s| && Message <= s[i..]
    requires i + |w| < |s| ==> s[i + |w|] == ')' || IsSpace(s[i + |w|])
    ensures Message <= w
  {
    assert forall k | 0 <= k < |Message| :: s[i + k] == s[i..][k] == Message[k];
    assert forall k | 0 <= k < |Message| :: w[k] == s[i + k] == s[i..][k] == Message[k];
  }

  // The three facts below are kept behind a quantifier that only Open instantiates,
  // so that the grammar is unrolled in the few lemmas that look into it.

  predicate Open(k: nat) { true }

  ghost predicate ReadsExpr(s: Text, i: nat, j: nat, actions: seq<Action>) {
    forall k {:trigger Open(k)} :: Open(k) ==> i < j <= |s| && ParseExpr(s, i) == Parsed(true, j, actions)
  }

  ghost predicate ReadsMany(s: Text, i: nat, j: nat, actions: seq<Action>) {
    forall k {:trigger Open(k)} :: Open(k) ==> i <= j <= |s| && ParseMany(s, i) == Parsed(true, j, actions)
  }

  ghost predicate ReadsCall(s: Text, i: nat, j: nat, actions: seq<Action>) {
    forall k {:trigger Open(k)} :: Open(k) ==> i < j <= |s| && ParseCall(s, i) == Parsed(true, j, actions)
  }

  lemma {:induction false} LeafReads(s: Text, i: nat, w: Text)
    requires IsWord(w) && Stands(s, i, w) && Delimited(s, i + |w|) && TermEnd(s, i) == i + |w|
    ensures ReadsExpr(s, i, i + |w|, [AddLeaf(w)])
  {
    LeafParses(s, i, w);
  }

  /** Spaces in front of an expression do not matter. */
  lemma {:induction false} SpaceSkipped(s: Text, i: nat, j: nat, actions: seq<Action>)
    requires i < |s| && IsSpace(s[i]) && ReadsExpr(s, i + 1, j, actions)
    ensures ReadsExpr(s, i, j, actions)
  {
    assert Open(0);
    assert SkipSpaces(s, i) == SkipSpaces(s, i + 1);
    SkippedOutside(s, i);
    assert i < j <= |s| && ParseExpr(s, i) == Parsed(true, j, actions);
  }

  lemma {:induction false} SkippedOutside(s: Text, i: nat)
    requires i < |s| && SkipSpaces(s, i) == SkipSpaces(s, i + 1)
    ensures ParseBeg(s, i).ok == ParseBeg(s, i + 1).ok && ParseBeg(s, i).actions == ParseBeg(s, i + 1).actions
    ensures ParseBeg(s, i).ok ==> ParseBeg(s, i) == ParseBeg(s, i + 1)
    ensures ParseTerm(s, i).ok == ParseTerm(s, i + 1).ok
    ensures ParseTerm(s, i).ok ==> ParseTerm(s, i) == ParseTerm(s, i + 1)
  {
  }

  lemma {:induction false} ExprOf(s: Text, i: nat, j: nat, end: nat, w: Text, more: seq<Action>)
    requires IsWord(w) && Stands(s, i, w + "(") && j == i + |w| + 1 && ReadsCall(s, j, end, more)
    ensures ReadsExpr(s, i, end, [Begin(w)] + more)
  {
    assert Open(0);
    StandsSplit(s, i, w, "(");
    assert s[i + |w|] == s[i + |w|..i + |w| + 1][0] == '(';
    WordStands(s, i, w);
    assert ParseBeg(s, i) == Parsed(true, j, [Begin(w)]);
    assert i < end <= |s| && ParseExpr(s, i) == Parsed(true, end, [Begin(w)] + more);
  }

  lemma {:induction false} CallOf(s: Text, i: nat, j: nat, end: nat, first: seq<Action>, more: seq<Action>)
    requires end < |s| && s[end] == ')' && ReadsExpr(s, i, j, first) && ReadsMany(s, j, end, more)
    ensures ReadsCall(s, i, end + 1, first + more + [End])
  {
    assert Open(0);
    assert i < end + 1 <= |s| && ParseCall(s, i) == Parsed(true, end + 1, first + more + [End]);
  }

  lemma {:induction false} ManyOf(s: Text, i: nat, j: nat, end: nat, first: seq<Action>, more: seq<Action>)
    requires ReadsExpr(s, i, j, first) && ReadsMany(s, j, end, more)
    ensures ReadsMany(s, i, end, first + more)
  {
    assert Open(0);
    assert i <= end <= |s| && ParseMany(s, i) == Parsed(true, end, first + more);
  }

  lemma {:induction false} ManyEnds(s: Text, i: nat)
    requires i < |s| && s[i] == ')'
    ensures ReadsMany(s, i, i, [])
  {
    assert !ParseBeg(s, i).ok && !ParseTerm(s, i).ok;
    assert i <= i <= |s| && ParseMany(s, i) == Parsed(true, i, []);
  }

  predicate Delimited(s: Text, i: nat) { i < |s| ==> s[i] == ')' || IsSpace(s[i]) }

  predicate AllPrintable(ts: seq<Tree<Text>>) { forall k | 0 <= k < |ts| :: Printable(ts[k]) }

  /** At i, where t of words is printed, each of its leaves is read to its own end. */
  predicate Fits(s: Text, i: nat, t: Tree<Text>)
    decreases t
  {
    && IsWord(t.op)
    && if t.kids == [] then i <= |s| && TermEnd(s, i) == i + |t.op| else FitsAll(s, i + |t.op| + 1, t.kids)
  }

  predicate FitsAll(s: Text, i: nat, ts: seq<Tree<Text>>)
    decreases ts
  {
    ts == [] || (Fits(s, i, ts[0]) && FitsAll(s, i + |Print(ts[0])| + 1, ts[1..]))
  }

  /** The grammar reads a printed tree to its end, and sets off the actions that build it. */
  lemma {:induction false} PrintReads(s: Text, i: nat, t: Tree<Text>)
    requires Printable(t) && Stands(s, i, Print(t)) && Delimited(s, i + |Print(t)|)
    ensures ReadsExpr(s, i, i + |Print(t)|, ActionsOf(t))
  {
    PrintableFits(s, i, t);
    FitReads(s, i, t);
  }

  lemma {:induction false} PrintableFits(s: Text, i: nat, t: Tree<Text>)
    requires Printable(t) && Stands(s, i, Print(t)) && Delimited(s, i + |Print(t)|)
    ensures Fits(s, i, t)
    decreases t, 2
  {
    if t.kids == [] {
      WordStands(s, i, t.op);
      LeafEnds(s, i, t.op);
    } else {
      CallStands(s, i, t.op, PrintAll(t.kids));
      AllPrintableFit(s, i + |t.op| + 1, t.kids);
    }
  }

  lemma {:induction false} AllPrintableFit(s: Text, i: nat, ts: seq<Tree<Text>>)
    requires AllPrintable(ts) && Stands(s, i, PrintAll(ts))
    requires i + |PrintAll(ts)| < |s| && s[i + |PrintAll(ts)|] == ')'
    ensures FitsAll(s, i, ts)
    decreases ts, 1
  {
    if ts != [] {
      FirstStands(s, i, ts);
      PrintableFits(s, i, ts[0]);
      if ts[1..] != [] { RestPrintableFits(s, i, ts); }
      FitsParts(s, i, ts);
    }
  }

  lemma {:induction false} RestPrintableFits(s: Text, i: nat, ts: seq<Tree<Text>>)
    requires ts != [] && ts[1..] != [] && AllPrintable(ts) && Stands(s, i, PrintAll(ts))
    requires i + |PrintAll(ts)| < |s| && s[i + |PrintAll(ts)|] == ')'
    ensures FitsAll(s, i + |Print(ts[0])| + 1, ts[1..])
    decreases ts, 0
  {
    RestStands(s, i, ts);
    AllPrintableFit(s, i + |Print(ts[0])| + 1, ts[1..]);
  }

  lemma {:induction false} FitsParts(s: Text, i: nat, ts: seq<Tree<Text>>)
    requires ts != []
    ensures FitsAll(s, i, ts) <==> Fits(s, i, ts[0]) && FitsAll(s, i + |Print(ts[0])| + 1, ts[1..])
    ensures ts[1..] == [] ==> FitsAll(s, i + |Print(ts[0])| + 1, ts[1..])
  {
  }

  /** The further ones of several printed trees. */
  lemma {:induction false} RestStands(s: Text, i: nat, ts: seq<Tree<Text>>)
    requires ts != [] && ts[1..] != [] && Stands(s, i, PrintAll(ts))
    requires i + |PrintAll(ts)| < |s| && s[i + |PrintAll(ts)|] == ')'
    ensures var j := i + |Print(ts[0])| + 1;
            s[j - 1] == ' ' && Stands(s, j, PrintAll(ts[1..])) && j + |PrintAll(ts[1..])| < |s| && s[j + |PrintAll(ts[1..])|] == ')'
  {
    RestOf(s, i, PrintAll(ts), Print(ts[0]), PrintAll(ts[1..]));
  }

  lemma {:induction false} RestOf(s: Text, i: nat, all: Text, first: Text, rest: Text)
    requires all == first + " " + rest && Stands(s, i, all) && i + |all| < |s| && s[i + |all|] == ')'
    ensures var j := i + |first| + 1; s[j - 1] == ' ' && Stands(s, j, rest) && j + |rest| < |s| && s[j + |rest|] == ')'
  {
    StandsSplit(s, i, first + " ", rest);
    assert s[i..i + |first + " "|][|first|] == ' ';
  }

  // Kept folded, too, until FitParts and FitKids ask for it.

  predicate Unfolded(k: nat) { true }

  ghost predicate Fit(s: Text, i: nat, t: Tree<Text>) { forall k {:trigger Unfolded(k)} :: Unfolded(k) ==> Fits(s, i, t) }

  ghost predicate FitAll(s: Text, i: nat, ts: seq<Tree<Text>>) { forall k {:trigger Unfolded(k)} :: Unfolded(k) ==> FitsAll(s, i, ts) }

  lemma {:induction false} FitParts(s: Text, i: nat, ts: seq<Tree<Text>>)
    requires FitAll(s, i, ts)
    ensures ts != [] ==> Fit(s, i, ts[0]) && FitAll(s, i + |Print(ts[0])| + 1, ts[1..])
  {
    assert Unfolded(0);
  }

  lemma {:induction false} FitKids(s: Text, i: nat, t: Tree<Text>)
    requires Fit(s, i, t)
    ensures IsWord(t.op)
    ensures if t.kids == [] then i <= |s| && TermEnd(s, i) == i + |t.op| else FitAll(s, i + |t.op| + 1, t.kids)
  {
    assert Unfolded(0);
  }

  lemma {:induction false} FitReads(s: Text, i: nat, t: Tree<Text>)
    requires Fit(s, i, t) && Stands(s, i, Print(t)) && Delimited(s, i + |Print(t)|)
    ensures ReadsExpr(s, i, i + |Print(t)|, ActionsOf(t))
    decreases t
  {
    FitKids(s, i, t);
    if t.kids == [] {
      LeafReads(s, i, t.op);
    } else {
      var j, end := i + |t.op| + 1, i + |Print(t)|;
      CallStands(s, i, t.op, PrintAll(t.kids));
      CallReads(s, j, t.kids);
      ExprOf(s, i, j, end, t.op, ActionsOfAll(t.kids) + [End]);
      assert [Begin(t.op)] + (ActionsOfAll(t.kids) + [End]) == ActionsOf(t);
    }
  }

  lemma {:induction false} CallStands(s: Text, i: nat, w: Text, inner: Text)
    requires Stands(s, i, w + "(" + inner + ")")
    ensures Stands(s, i, w + "(") && Stands(s, i + |w| + 1, inner)
    ensures var close := i + |w| + 1 + |inner|;
      close < |s| && s[close] == ')' && i + |w + "(" + inner + ")"| == close + 1
  {
    var close := i + |w| + 1 + |inner|;
    StandsSplit(s, i, w + "(" + inner, ")");
    StandsSplit(s, i, w + "(", inner);
    assert s[close] == s[close..close + 1][0] == ')';
  }

  lemma {:induction false} CallReads(s: Text, i: nat, ts: seq<Tree<Text>>)
    requires ts != [] && FitAll(s, i, ts) && Stands(s, i, PrintAll(ts))
    requires i + |PrintAll(ts)| < |s| && s[i + |PrintAll(ts)|] == ')'
    ensures ReadsCall(s, i, i + |PrintAll(ts)| + 1, ActionsOfAll(ts) + [End])
    decreases ts, 4
  {
    var j := i + |Print(ts[0])|;
    FitParts(s, i, ts);
    FirstReads(s, i, ts);
    ManyRead(s, j, i + |Print(ts[0])| + 1, ts[1..]);
    CallOf(s, i, j, j + |MorePrinted(ts[1..])|, ActionsOf(ts[0]), ActionsOfAll(ts[1..]));
  }

  /** The texts of further trees, each behind a blank. */
  function MorePrinted(ts: seq<Tree<Text>>): Text {
    if ts == [] then "" else " " + PrintAll(ts)
  }

  /** The first of several printed trees, and what follows it. */
  lemma {:induction false} FirstReads(s: Text, i: nat, ts: seq<Tree<Text>>)
    requires ts != [] && FitAll(s, i, ts) && Stands(s, i, PrintAll(ts))
    requires i + |PrintAll(ts)| < |s| && s[i + |PrintAll(ts)|] == ')'
    ensures ReadsExpr(s, i, i + |Print(ts[0])|, ActionsOf(ts[0]))
    ensures |PrintAll(ts)| == |Print(ts[0])| + |MorePrinted(ts[1..])|
    ensures Stands(s, i + |Print(ts[0])|, MorePrinted(ts[1..]))
    decreases ts, 0
  {
    FirstStands(s, i, ts);
    FitReads(s, i, ts[0]);
  }

  lemma {:induction false} FirstStands(s: Text, i: nat, ts: seq<Tree<Text>>)
    requires ts != [] && Stands(s, i, PrintAll(ts))
    requires i + |PrintAll(ts)| < |s| && s[i + |PrintAll(ts)|] == ')'
    ensures |PrintAll(ts)| == |Print(ts[0])| + |MorePrinted(ts[1..])|
    ensures Stands(s, i, Print(ts[0])) && Stands(s, i + |Print(ts[0])|, MorePrinted(ts[1..]))
    ensures Delimited(s, i + |Print(ts[0])|)
  {
    PrintAllIs(ts);
    SplitStands(s, i, PrintAll(ts), Print(ts[0]), MorePrinted(ts[1..]));
  }

  lemma {:induction false} PrintAllIs(ts: seq<Tree<Text>>)
    requires ts != []
    ensures PrintAll(ts) == Print(ts[0]) + MorePrinted(ts[1..])
    ensures MorePrinted(ts[1..]) == "" || MorePrinted(ts[1..])[0] == ' '
  {
  }

  lemma {:induction false} SplitStands(s: Text, i: nat, uv: Text, u: Text, v: Text)
    requires uv == u + v && (v == "" || v[0] == ' ')
    requires Stands(s, i, uv) && i + |uv| < |s| && s[i + |uv|] == ')'
    ensures |uv| == |u| + |v| && Stands(s, i, u) && Stands(s, i + |u|, v) && Delimited(s, i + |u|)
  {
    StandsSplit(s, i, u, v);
    if v != "" { assert s[i + |u|] == s[i + |u|..i + |u| + |v|][0] == ' '; }
  }

  lemma {:induction false} BlankThen(s: Text, i: nat, v: Text)
    requires Stands(s, i, " " + v)
    ensures s[i] == ' ' && Stands(s, i + 1, v)
  {
    StandsSplit(s, i, " ", v);
    assert s[i] == s[i..i + 1][0];
  }

  /** The next of several printed trees behind a blank, and what follows it. */
  lemma {:induction false} NextReads(s: Text, i: nat, at: nat, ts: seq<Tree<Text>>)
    requires ts != [] && at == i + 1 && FitAll(s, at, ts) && Stands(s, i, " " + PrintAll(ts))
    requires i + 1 + |PrintAll(ts)| < |s| && s[i + 1 + |PrintAll(ts)|] == ')'
    ensures ReadsExpr(s, i, i + 1 + |Print(ts[0])|, ActionsOf(ts[0]))
    ensures |PrintAll(ts)| == |Print(ts[0])| + |MorePrinted(ts[1..])|
    ensures Stands(s, i + 1 + |Print(ts[0])|, MorePrinted(ts[1..]))
    decreases ts, 1
  {
    BlankThen(s, i, PrintAll(ts));
    FirstReads(s, at, ts);
    SpaceSkipped(s, i, i + 1 + |Print(ts[0])|, ActionsOf(ts[0]));
  }

  lemma {:induction false} ManyRead(s: Text, i: nat, at: nat, ts: seq<Tree<Text>>)
    requires at == i + 1 && FitAll(s, at, ts) && Stands(s, i, MorePrinted(ts))
    requires i + |MorePrinted(ts)| < |s| && s[i + |MorePrinted(ts)|] == ')'
    ensures ReadsMany(s, i, i + |MorePrinted(ts)|, ActionsOfAll(ts))
    decreases ts, 3
  {
    if ts == [] {
      ManyEnds(s, i);
    } else {
      MoreLength(ts);
      MoreRead(s, i, at, ts, |MorePrinted(ts[1..])|);
    }
  }

  lemma {:induction false} MoreLength(ts: seq<Tree<Text>>)
    requires ts != []
    ensures |MorePrinted(ts)| == 1 + |PrintAll(ts)| == 1 + |Print(ts[0])| + |MorePrinted(ts[1..])|
  {
    PrintAllIs(ts);
  }

  lemma {:induction false} MoreRead(s: Text, i: nat, at: nat, ts: seq<Tree<Text>>, len: nat)
    requires ts != [] && at == i + 1 && FitAll(s, at, ts) && Stands(s, i, " " + PrintAll(ts)) && len == |MorePrinted(ts[1..])|
    requires var end := i + 1 + |Print(ts[0])| + len; end < |s| && s[end] == ')' && |PrintAll(ts)| == |Print(ts[0])| + len
    ensures ReadsMany(s, i, i + 1 + |Print(ts[0])| + len, ActionsOfAll(ts))
    decreases ts, 2
  {
    var j := i + 1 + |Print(ts[0])|;
    FitParts(s, at, ts);
    NextReads(s, i, at, ts);
    ManyRead(s, j, at + |Print(ts[0])| + 1, ts[1..]);
    ManyOf(s, i, j, j + len, ActionsOf(ts[0]), ActionsOfAll(ts[1..]));
  }

  // ---------------------------------------------------------------- cleaning up blanks

  function SkipBlanks(s: Text, i: nat): (j: nat)
    ensures i <= j && !IsBlank(At(s, j)) && (forall k | i <= k < j :: k < |s| && IsBlank(s[k]))
    decreases |s| - i
  {
    if i < |s| && IsBlank(s[i]) then SkipBlanks(s, i + 1) else i
  }

  /** The position whose character is copied when the clean-up has come to i: blanks
      before an open parenthesis are left out, and so is a pair of parentheses
      around nothing but blanks. */
  function CopiedFrom(s: Text, i: nat): (k: nat)
    requires i < |s|
    ensures i <= k <= |s|
  {
    var open := SkipBlanks(s, i);
    if At(s, open) != '(' then i
    else
      var close := SkipBlanks(s, open + 1);
      if At(s, close) == ')' then close + 1 else open
  }

  function TidiedFrom(s: Text, i: nat): Text
    decreases |s| - i
  {
    if i >= |s| then "" else [At(s, CopiedFrom(s, i))] + TidiedFrom(s, CopiedFrom(s, i) + 1)
  }

  function Tidied(s: Text): Text { TidiedFrom(s, SkipBlanks(s, 0)) }

  method FindNonBlank(str: array<char>, from: nat, ghost s: Text) returns (j: nat)
    requires from <= |s| < str.Length && str[|s|] == NUL
    requires forall k | from <= k < |s| :: str[k] == s[k]
    ensures j == SkipBlanks(s, from) <= |s| && str[j] == At(s, j)
  {
    j := from;
    while str[j] == ' ' || str[j] == '\t'
      invariant from <= j <= |s| && SkipBlanks(s, j) == SkipBlanks(s, from)
      decreases |s| - j
    {
      j := j + 1;
    }
  }

  method FindCopied(str: array<char>, i: nat, ghost s: Text) returns (from: nat)
    requires i < |s| < str.Length && str[|s|] == NUL
    requires forall k | i <= k < |s| :: str[k] == s[k]
    ensures from == CopiedFrom(s, i) && str[from] == At(s, from)
  {
    from := i;
    var open := FindNonBlank(str, i, s);
    if str[open] == '(' {
      from := open;
      var close := FindNonBlank(str, open + 1, s);
      if str[close] == ')' { from := close + 1; }
    }
  }

  /** The text from i on is still as it was, and so is the terminator. */
  ghost predicate Untouched(str: array<char>, i: nat, s: Text)
    reads str
  {
    |s| + 1 == str.Length && str[|s|] == NUL && forall k | i <= k < |s| :: str[k] == s[k]
  }

  /** What is still to be copied once done has been. */
  ghost predicate Remains(s: Text, i: nat, done: Text) {
    done + TidiedFrom(s, i) == Tidied(s)
  }

  lemma {:induction false} RemainsNext(s: Text, i: nat, done: Text)
    requires i < |s| && Remains(s, i, done)
    ensures Remains(s, CopiedFrom(s, i) + 1, done + [At(s, CopiedFrom(s, i))])
  {
    var k := CopiedFrom(s, i);
    assert done + ([At(s, k)] + TidiedFrom(s, k + 1)) == done + [At(s, k)] + TidiedFrom(s, k + 1);
  }

  lemma {:induction false} NothingRemains(s: Text, i: nat, done: Text)
    requires i >= |s| && Remains(s, i, done)
    ensures done == Tidied(s)
  {
  }

  /** Copies one character to j, and returns the position it came from. */
  method CopyOne(str: array<char>, i: nat, j: nat, ghost s: Text) returns (from: nat)
    requires j <= i < |s| && Untouched(str, i, s)
    modifies str
    ensures i <= from <= |s| && from == CopiedFrom(s, i) && str[j] == At(s, from) && Untouched(str, from + 1, s)
    ensures forall k | 0 <= k < j :: str[k] == old(str[k])
  {
    from := FindCopied(str, i, s);
    str[j] := str[from];
  }

  /** Cleans up the blanks of a text in place and returns its new length.  The
      array holds the text and its terminator. */
  method Tidy(str: array<char>) returns (j: nat)
    requires str.Length > 0 && str[str.Length - 1] == NUL
    modifies str
    ensures j < str.Length && str[..j] == Tidied(old(str[..str.Length - 1])) && str[j] == NUL
  {
    var size := str.Length - 1;
    ghost var s, done := str[..size], "";
    var i := FindNonBlank(str, 0, s);
    j := 0;
    assert Remains(s, i, done);
    while i < size
      invariant j <= i <= size + 1 && j <= size && Untouched(str, i, s)
      invariant j == |done| && forall k | 0 <= k < j :: str[k] == done[k]
      invariant Remains(s, i, done)
      decreases size + 1 - i
    {
      var from := CopyOne(str, i, j, s);
      RemainsNext(s, i, done);
      done := done + [At(s, from)];
      i := from + 1;
      j := j + 1;
    }
    NothingRemains(s, i, done);
    str[j] := NUL;
    assert str[..j] == done;
  }

  /** Behind a blank or an open parenthesis stands a word. */
  predicate Neat(s: Text) {
    forall i | 0 <= i < |s| && (IsBlank(s[i]) || s[i] == '(') :: i + 1 < |s| && IsWordChar(s[i + 1])
  }

  lemma {:induction false} NeatConcat(u: Text, v: Text)
    requires Neat(u) && Neat(v)
    ensures Neat(u + v)
  {
  }

  lemma {:induction false} NeatAfter(c: char, v: Text)
    requires v != [] && IsWordChar(v[0]) && Neat(v)
    ensures Neat([c] + v)
  {
  }

  lemma {:induction false} PrintedNeat(t: Tree<Text>)
    requires Worded(t)
    ensures Neat(Print(t)) && Print(t) != [] && IsWordChar(Print(t)[0])
    decreases t
  {
    assert Neat(t.op);
    if t.kids != [] {
      AllNeat(t.kids);
      var inner := PrintAll(t.kids);
      NeatAfter('(', inner);
      NeatConcat(t.op, "(" + inner);
      NeatConcat(t.op + ("(" + inner), ")");
      assert t.op + "(" + inner + ")" == t.op + ("(" + inner) + ")";
    }
  }

  lemma {:induction false} AllNeat(ts: seq<Tree<Text>>)
    requires ts != [] && AllWorded(ts)
    ensures Neat(PrintAll(ts)) && PrintAll(ts) != [] && IsWordChar(PrintAll(ts)[0])
    decreases ts
  {
    PrintedNeat(ts[0]);
    if |ts| > 1 {
      AllNeat(ts[1..]);
      NeatAfter(' ', PrintAll(ts[1..]));
      NeatConcat(Print(ts[0]), " " + PrintAll(ts[1..]));
      assert Print(ts[0]) + " " + PrintAll(ts[1..]) == Print(ts[0]) + (" " + PrintAll(ts[1..]));
    }
  }

  /** The clean-up leaves a neat text, and a blank behind it, as they are. */
  lemma {:induction false} TidyKeepsNeat(s: Text, i: nat)
    requires Neat(s) && i <= |s + " "|
    ensures TidiedFrom(s + " ", i) == (s + " ")[i..]
    decreases |s| - i
  {
    var u := s + " ";
    if i < |u| {
      KeptInPlace(s, i);
      TidyKeepsNeat(s, i + 1);
    }
  }

  lemma {:induction false} KeptInPlace(s: Text, i: nat)
    requires Neat(s) && i < |s + " "|
    ensures CopiedFrom(s + " ", i) == i
  {
    var u := s + " ";
    if i < |s| && IsBlank(s[i]) {
      assert IsWordChar(u[i + 1]);
      assert SkipBlanks(u, i) == i + 1;
    } else if i < |s| && s[i] == '(' {
      assert IsWordChar(u[i + 1]);
      assert SkipBlanks(u, i) == i && SkipBlanks(u, i + 1) == i + 1;
    } else if i == |s| {
      assert u[i] == ' ' && SkipBlanks(u, i) == i + 1;
    }
  }

  lemma {:induction false} PrintedIsTidy(t: Tree<Text>)
    requires Worded(t)
    ensures Tidied(Print(t) + " ") == Print(t) + " "
  {
    PrintedNeat(t);
    TidyKeepsNeat(Print(t), 0);
    assert SkipBlanks(Print(t) + " ", 0) == 0;
  }

  // ---------------------------------------------------------------- reading lines

  function Count(s: Text, c: char): nat {
    if s == "" then 0 else (if s[0] == c then 1 else 0) + Count(s[1..], c)
  }

  /** The text of the lines up to the first at which as many parentheses have been
      closed as opened, each line followed by a blank; nothing when the counts
      differ in the end.  The line behind the last one is empty. */
  function Gathered(lines: seq<Text>, text: Text, open: int): (Text, int) {
    var line := if lines == [] then "" else lines[0];
    var open' := open + Count(line, '(') - Count(line, ')');
    var text' := text + (line + " ");
    if |lines| > 1 && open' > 0 then Gathered(lines[1..], text', open') else (text', open')
  }

  method Gather(lines: seq<Text>) returns (text: Text, balanced: bool)
    ensures (text, balanced) == (Gathered(lines, "", 0).0, Gathered(lines, "", 0).1 == 0)
  {
    text := "";
    var open, k := 0, 0;
    while true
      invariant k == 0 || k < |lines|
      invariant Gathered(lines[k..], text, open) == Gathered(lines, "", 0)
      decreases |lines| - k
    {
      var line := if k < |lines| then lines[k] else "";
      assert lines[k..] != [] ==> lines[k..][0] == lines[k] && lines[k..][1..] == lines[k + 1..];
      open := open + Count(line, '(') - Count(line, ')');
      text := text + (line + " ");
      if k + 1 >= |lines| || open <= 0 { break; }
      k := k + 1;
    }
    balanced := open == 0;
  }

  lemma {:induction false} CountConcat(s: Text, u: Text, c: char)
    ensures Count(s + u, c) == Count(s, c) + Count(u, c)
  {
    if s == "" {
      assert s + u == u;
    } else {
      assert (s + u)[1..] == s[1..] + u;
      CountConcat(s[1..], u, c);
    }
  }

  predicate SameCounts(s: Text) { Count(s, '(') == Count(s, ')') }

  lemma {:induction false} SameCountsConcat(s: Text, u: Text)
    requires SameCounts(s) && SameCounts(u)
    ensures SameCounts(s + u)
  {
    CountConcat(s, u, '(');
    CountConcat(s, u, ')');
  }

  lemma {:induction false} WordBalanced(w: Text)
    requires forall i | 0 <= i < |w| :: !IsParen(w[i])
    ensures SameCounts(w)
  {
    if w != "" { WordBalanced(w[1..]); }
  }

  lemma {:induction false} PrintedBalanced(t: Tree<Text>)
    requires Worded(t)
    ensures SameCounts(Print(t))
    decreases t
  {
    WordBalanced(t.op);
    if t.kids != [] {
      AllBalanced(t.kids);
      Wrapped(t.op, PrintAll(t.kids));
    }
  }

  lemma {:induction false} Wrapped(w: Text, inner: Text)
    requires SameCounts(w) && SameCounts(inner)
    ensures SameCounts(w + "(" + inner + ")")
  {
    forall c | c == '(' || c == ')'
      ensures Count(w + "(" + inner + ")", c) == Count(w, c) + Count("(", c) + Count(inner, c) + Count(")", c)
    {
      CountConcat(w + "(" + inner, ")", c);
      CountConcat(w + "(", inner, c);
      CountConcat(w, "(", c);
    }
  }

  lemma {:induction false} AllBalanced(ts: seq<Tree<Text>>)
    requires AllWorded(ts)
    ensures SameCounts(PrintAll(ts))
    decreases ts
  {
    if ts != [] {
      PrintedBalanced(ts[0]);
      AllBalanced(ts[1..]);
      WordBalanced(" ");
      SameCountsConcat(Print(ts[0]), " ");
      if |ts| > 1 { SameCountsConcat(Print(ts[0]) + " ", PrintAll(ts[1..])); }
    }
  }

  /** The text up to its terminator. */
  function UpToNul(s: Text): Text {
    if s == "" || s[0] == NUL then "" else [s[0]] + UpToNul(s[1..])
  }

  predicate NulFree(s: Text) { forall i | 0 <= i < |s| :: s[i] != NUL }

  lemma {:induction false} NulFreeIsWhole(s: Text)
    requires NulFree(s)
    ensures UpToNul(s) == s
  {
    if s != "" { NulFreeIsWhole(s[1..]); }
  }

  lemma {:induction false} PrintedNulFree(t: Tree<Text>)
    requires Worded(t)
    ensures NulFree(Print(t))
    decreases t
  {
    if t.kids != [] { AllNulFree(t.kids); }
  }

  lemma {:induction false} AllNulFree(ts: seq<Tree<Text>>)
    requires AllWorded(ts)
    ensures NulFree(PrintAll(ts))
    decreases ts
  {
    if ts != [] {
      PrintedNulFree(ts[0]);
      AllNulFree(ts[1..]);
    }
  }

  /** What the parser gets to see of a printed tree: its text and a blank. */
  lemma {:induction false} PrintedReachesParser(t: Tree<Text>, more: seq<Text>)
    requires Printable(t)
    ensures Gathered([Print(t)] + more, "", 0) == (Print(t) + " ", 0)
    ensures UpToNul(Tidied(Print(t) + " ")) == Print(t) + " "
    ensures ParseExpr(Print(t) + " ", 0) == Parsed(true, |Print(t)|, ActionsOf(t))
  {
    PrintableIsWorded(t);
    WordsReachParser(t, more);
    PrintedParses(t);
  }

  lemma {:induction false} WordsReachParser(t: Tree<Text>, more: seq<Text>)
    requires Worded(t)
    ensures Gathered([Print(t)] + more, "", 0) == (Print(t) + " ", 0)
    ensures UpToNul(Tidied(Print(t) + " ")) == Print(t) + " "
  {
    PrintedIsGathered(t, more);
    PrintedIsTidy(t);
    PrintedNulFree(t);
    NulFreeIsWhole(Print(t) + " ");
  }

  lemma {:induction false} PrintedIsGathered(t: Tree<Text>, more: seq<Text>)
    requires Worded(t)
    ensures Gathered([Print(t)] + more, "", 0) == (Print(t) + " ", 0)
  {
    PrintedBalanced(t);
    assert ([Print(t)] + more)[0] == Print(t);
    assert "" + (Print(t) + " ") == Print(t) + " ";
  }

  lemma {:induction false} PrintedParses(t: Tree<Text>)
    requires Printable(t)
    ensures ParseExpr(Print(t) + " ", 0) == Parsed(true, |Print(t)|, ActionsOf(t))
  {
    var s := Print(t) + " ";
    assert Stands(s, 0, Print(t));
    PrintReads(s, 0, t);
    OpenUp(s, 0, |Print(t)|, ActionsOf(t));
  }

  lemma {:induction false} OpenUp(s: Text, i: nat, j: nat, actions: seq<Action>)
    requires ReadsExpr(s, i, j, actions)
    ensures i < j <= |s| && ParseExpr(s, i) == Parsed(true, j, actions)
  {
    assert Open(0);
  }
}
