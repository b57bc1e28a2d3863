/** Reading trees that are written with more blanks and parentheses than the printer
    puts, and over several lines. */
module Spellings {
  import opened Options
  import opened Trees
  import opened TreeText
  import opened TreeReaders
  import opened ReadBack

  // ---------------------------------------------------------------- spellings

  predicate Blanks(b: Text) { forall i | 0 <= i < |b| :: IsBlank(b[i]) }

  /** The text is the tree with blanks in front of open parentheses, and with an empty
      pair of parentheses behind any label without children. */
  ghost predicate Spells(s: Text, t: Tree<Text>)
    decreases t
  {
    if t.kids == [] then s == t.op || (exists b, c :: Blanks(b) && Blanks(c) && s == t.op + EmptyPair(b, c))
    else exists b, inner :: Blanks(b) && s == t.op + Parenthesised(b, inner) && SpellsAll(inner, t.kids)
  }

  ghost predicate SpellsAll(s: Text, ts: seq<Tree<Text>>)
    decreases ts
  {
    if ts == [] then false
    else if |ts| == 1 then Spells(s, ts[0])
    else exists u, v :: s == u + " " + v && Spells(u, ts[0]) && SpellsAll(v, ts[1..])
  }

  function EmptyPair(b: Text, c: Text): Text { b + "(" + c + ")" }

  function Parenthesised(b: Text, inner: Text): Text { b + "(" + inner + ")" }

  lemma {:induction false} SpelledStartsWithWord(s: Text, t: Tree<Text>)
    requires Worded(t) && Spells(s, t)
    ensures s != "" && IsWordChar(s[0])
  {
  }

  lemma {:induction false} AllSpelledStartWithWord(s: Text, ts: seq<Tree<Text>>)
    requires AllWorded(ts) && SpellsAll(s, ts)
    ensures s != "" && IsWordChar(s[0])
  {
    if |ts| == 1 {
      SpelledStartsWithWord(s, ts[0]);
    } else {
      var u, v :| s == u + " " + v && Spells(u, ts[0]) && SpellsAll(v, ts[1..]);
      SpelledStartsWithWord(u, ts[0]);
    }
  }

  // ---------------------------------------------------------------- the clean-up, place by place

  /** u stands in s at i. */
  predicate Stands(u: Text, s: Text, i: nat) {
    i + |u| <= |s| && forall k | 0 <= k < |u| :: s[i + k] == u[k]
  }

  lemma {:induction false} BothStand(u: Text, v: Text, s: Text, i: nat)
    requires Stands(u + v, s, i)
    ensures Stands(u, s, i) && Stands(v, s, i + |u|)
  {
    forall k | 0 <= k < |u| ensures s[i + k] == u[k] { assert (u + v)[k] == u[k]; }
    forall k | 0 <= k < |v| ensures s[i + |u| + k] == v[k] { assert (u + v)[|u| + k] == v[k]; }
  }

  /** Neither blanks nor an open parenthesis that are left out stand at i. */
  predicate Follows(s: Text, i: nat) { i < |s| && At(s, SkipBlanks(s, i)) != '(' }

  /** From i on, out is copied before the clean-up comes to j. */
  ghost predicate Copies(s: Text, i: nat, out: Text, j: nat) {
    TidiedFrom(s, i) == out + TidiedFrom(s, j)
  }

  lemma {:induction false} FirstCopied(s: Text, i: nat, k: nat)
    requires i < |s| && CopiedFrom(s, i) == k < |s|
    ensures Copies(s, i, [s[k]], k + 1)
  {
    FromCopied(s, i);
  }

  lemma {:induction false} FromCopied(s: Text, i: nat)
    requires i < |s|
    ensures TidiedFrom(s, i) == [At(s, CopiedFrom(s, i))] + TidiedFrom(s, CopiedFrom(s, i) + 1)
  {
  }

  lemma {:induction false} BothCopied(s: Text, i: nat, u: Text, j: nat, v: Text, k: nat)
    requires Copies(s, i, u, j) && Copies(s, j, v, k)
    ensures Copies(s, i, u + v, k)
  {
    Joined(TidiedFrom(s, i), u, TidiedFrom(s, j), v, TidiedFrom(s, k));
  }

  lemma {:induction false} ThreeCopied(s: Text, i: nat, u: Text, j: nat, v: Text, k: nat, w: Text, l: nat)
    requires Copies(s, i, u, j) && Copies(s, j, v, k) && Copies(s, k, w, l)
    ensures Copies(s, i, u + v + w, l)
  {
    BothCopied(s, i, u, j, v, k);
    BothCopied(s, i, u + v, k, w, l);
  }

  lemma {:induction false} Joined(a: Text, u: Text, b: Text, v: Text, c: Text)
    requires a == u + b && b == v + c
    ensures a == (u + v) + c
  {
  }

  lemma {:induction false} WordCopied(w: Text, s: Text, i: nat)
    requires Stands(w, s, i) && forall k | 0 <= k < |w| :: IsWordChar(w[k])
    ensures Copies(s, i, w, i + |w|)
    decreases w
  {
    if w != "" {
      var u := w[1..];
      assert w == [w[0]] + u;
      BothStand([w[0]], u, s, i);
      FirstCopied(s, i, i);
      WordCopied(u, s, i + 1);
      BothCopied(s, i, [w[0]], i + 1, u, i + |w|);
    }
  }

  lemma {:induction false} SkipsTo(s: Text, i: nat, b: Text)
    requires Blanks(b) && Stands(b, s, i) && !IsBlank(At(s, i + |b|))
    ensures SkipBlanks(s, i) == i + |b|
  {
    forall k | i <= k < i + |b| ensures IsBlank(s[k]) { assert s[i + (k - i)] == b[k - i]; }
  }

  /** Blanks in front of an open parenthesis are left out. */
  lemma {:induction false} OpenCopied(b: Text, s: Text, i: nat)
    requires Blanks(b) && Stands(b, s, i) && i + |b| < |s| && s[i + |b|] == '('
    requires At(s, SkipBlanks(s, i + |b| + 1)) != ')'
    ensures Copies(s, i, "(", i + |b| + 1)
  {
    SkipsTo(s, i, b);
    FirstCopied(s, i, i + |b|);
  }

  /** An empty pair of parentheses is left out. */
  lemma {:induction false} PairDropped(b: Text, c: Text, s: Text, i: nat, end: nat)
    requires Blanks(b) && Blanks(c) && Stands(EmptyPair(b, c), s, i) && end == i + |EmptyPair(b, c)| && Follows(s, end)
    ensures Copies(s, i, "", end)
  {
    PairParts(b, c, s, i);
    SkipsTo(s, i, b);
    SkipsTo(s, i + |b| + 1, c);
    FirstCopied(s, i, end);
    FirstCopied(s, end, end);
  }

  lemma {:induction false} PairParts(b: Text, inner: Text, s: Text, i: nat)
    requires Stands(Parenthesised(b, inner), s, i)
    ensures Stands(b, s, i) && s[i + |b|] == '(' && Stands(inner, s, i + |b| + 1) && s[i + |b| + 1 + |inner|] == ')'
  {
    BothStand(b + "(" + inner, ")", s, i);
    BothStand(b + "(", inner, s, i);
    BothStand(b, "(", s, i);
    assert "("[0] == s[i + |b| + 0];
    assert ")"[0] == s[i + |b| + 1 + |inner| + 0];
  }

  // ---------------------------------------------------------------- spellings are cleaned up

  lemma {:induction false} WordFollows(v: Text, s: Text, i: nat)
    requires v != "" && IsWordChar(v[0]) && Stands(v, s, i)
    ensures SkipBlanks(s, i) == i && At(s, i) == v[0] && (i > 0 && s[i - 1] == ' ' ==> Follows(s, i - 1))
  {
    assert s[i + 0] == v[0];
  }

  lemma {:induction false} BlankCopied(w: Text, s: Text, i: nat)
    requires w != "" && IsWordChar(w[0]) && Stands(" ", s, i) && Stands(w, s, i + 1)
    ensures Follows(s, i) && Copies(s, i, " ", i + 1)
  {
    assert " "[0] == s[i + 0];
    WordFollows(w, s, i + 1);
    FirstCopied(s, i, i);
  }

  /** The clean-up turns the spelling of a tree into what the printer writes. */
  lemma {:induction false} SpellingTidied(u: Text, t: Tree<Text>, s: Text, i: nat)
    requires Worded(t) && Spells(u, t) && Stands(u, s, i) && Follows(s, i + |u|)
    ensures Copies(s, i, Print(t), i + |u|)
    decreases t, 1
  {
    if u == t.op && t.kids == [] {
      WordCopied(u, s, i);
    } else if t.kids == [] {
      var b, c :| Blanks(b) && Blanks(c) && u == t.op + EmptyPair(b, c);
      BothStand(t.op, EmptyPair(b, c), s, i);
      PairTidied(t.op, b, c, s, i, i + |t.op|);
    } else {
      var b, inner :| Blanks(b) && u == t.op + Parenthesised(b, inner) && SpellsAll(inner, t.kids);
      BothStand(t.op, Parenthesised(b, inner), s, i);
      NodeTidied(t, b, inner, s, i, i + |t.op|);
    }
  }

  lemma {:induction false} PairTidied(w: Text, b: Text, c: Text, s: Text, i: nat, mid: nat)
    requires IsWord(w) && Blanks(b) && Blanks(c) && Stands(w, s, i) && mid == i + |w|
    requires Stands(EmptyPair(b, c), s, mid) && Follows(s, mid + |EmptyPair(b, c)|)
    ensures Copies(s, i, w, mid + |EmptyPair(b, c)|)
  {
    WordCopied(w, s, i);
    PairDropped(b, c, s, mid, mid + |EmptyPair(b, c)|);
    BothCopied(s, i, w, mid, "", mid + |EmptyPair(b, c)|);
    assert w + "" == w;
  }

  lemma {:induction false} NodeTidied(t: Tree<Text>, b: Text, inner: Text, s: Text, i: nat, mid: nat)
    requires Worded(t) && t.kids != [] && Blanks(b) && SpellsAll(inner, t.kids)
    requires Stands(t.op, s, i) && mid == i + |t.op|
    requires Stands(Parenthesised(b, inner), s, mid) && Follows(s, mid + |Parenthesised(b, inner)|)
    ensures Copies(s, i, Print(t), mid + |Parenthesised(b, inner)|)
    decreases t, 0
  {
    WordCopied(t.op, s, i);
    InnerTidied(b, inner, t.kids, s, mid);
    BothCopied(s, i, t.op, mid, "(" + PrintAll(t.kids) + ")", mid + |Parenthesised(b, inner)|);
    PrintedNode(t);
  }

  lemma {:induction false} PrintedNode(t: Tree<Text>)
    requires t.kids != []
    ensures Print(t) == t.op + ("(" + PrintAll(t.kids) + ")")
  {
    Joined(t.op + ("(" + PrintAll(t.kids) + ")"), t.op, "(" + PrintAll(t.kids) + ")", "(" + PrintAll(t.kids), ")");
    Joined(t.op + ("(" + PrintAll(t.kids)), t.op, "(" + PrintAll(t.kids), "(", PrintAll(t.kids));
  }

  lemma {:induction false} OpenBeforeWord(b: Text, inner: Text, s: Text, i: nat)
    requires Blanks(b) && Stands(b, s, i) && i + |b| < |s| && s[i + |b|] == '('
    requires inner != "" && IsWordChar(inner[0]) && Stands(inner, s, i + |b| + 1)
    ensures Copies(s, i, "(", i + |b| + 1)
  {
    WordFollows(inner, s, i + |b| + 1);
    OpenCopied(b, s, i);
  }

  lemma {:induction false} CloseCopied(s: Text, i: nat)
    requires i < |s| && s[i] == ')'
    ensures Follows(s, i) && Copies(s, i, ")", i + 1)
  {
    FirstCopied(s, i, i);
  }

  lemma {:induction false} InnerTidied(b: Text, inner: Text, kids: seq<Tree<Text>>, s: Text, i: nat)
    requires Blanks(b) && AllWorded(kids) && SpellsAll(inner, kids)
    requires Stands(Parenthesised(b, inner), s, i) && Follows(s, i + |Parenthesised(b, inner)|)
    ensures Copies(s, i, "(" + PrintAll(kids) + ")", i + |Parenthesised(b, inner)|)
    decreases kids, 2
  {
    var from := i + |b| + 1;
    var to := from + |inner|;
    PairParts(b, inner, s, i);
    AllSpelledStartWithWord(inner, kids);
    OpenBeforeWord(b, inner, s, i);
    CloseCopied(s, to);
    AllTidied(inner, kids, s, from);
    ThreeCopied(s, i, "(", from, PrintAll(kids), to, ")", to + 1);
  }

  lemma {:induction false} AllTidied(u: Text, ts: seq<Tree<Text>>, s: Text, i: nat)
    requires AllWorded(ts) && SpellsAll(u, ts) && Stands(u, s, i) && Follows(s, i + |u|)
    ensures Copies(s, i, PrintAll(ts), i + |u|)
    decreases ts, 1
  {
    if |ts| == 1 {
      SpellingTidied(u, ts[0], s, i);
    } else {
      var v, w :| u == v + " " + w && Spells(v, ts[0]) && SpellsAll(w, ts[1..]);
      BothStand(v + " ", w, s, i);
      BothStand(v, " ", s, i);
      TwoTidied(v, w, ts, s, i, i + |v|);
    }
  }

  lemma {:induction false} TwoTidied(v: Text, w: Text, ts: seq<Tree<Text>>, s: Text, i: nat, mid: nat)
    requires AllWorded(ts) && |ts| > 1 && Spells(v, ts[0]) && SpellsAll(w, ts[1..])
    requires Stands(v, s, i) && mid == i + |v| && Stands(" ", s, mid) && Stands(w, s, mid + 1) && Follows(s, mid + 1 + |w|)
    ensures Copies(s, i, PrintAll(ts), mid + 1 + |w|)
    decreases ts, 0
  {
    AllSpelledStartWithWord(w, ts[1..]);
    BlankCopied(w, s, mid);
    SpellingTidied(v, ts[0], s, i);
    AllTidied(w, ts[1..], s, mid + 1);
    ThreeCopied(s, i, Print(ts[0]), mid, " ", mid + 1, PrintAll(ts[1..]), mid + 1 + |w|);
  }

  /** Blanks in front do not matter either. */
  lemma {:induction false} SpelledTextTidied(lead: Text, u: Text, t: Tree<Text>)
    requires Worded(t) && Blanks(lead) && Spells(u, t)
    ensures Tidied(lead + u + " ") == Print(t) + " "
  {
    var s := lead + u + " ";
    assert Stands(lead + u + " ", s, 0);
    BothStand(lead + u, " ", s, 0);
    BothStand(lead, u, s, 0);
    LedTextTidied(lead, u, t, s);
  }

  lemma {:induction false} LedTextTidied(lead: Text, u: Text, t: Tree<Text>, s: Text)
    requires Worded(t) && Blanks(lead) && Spells(u, t)
    requires Stands(lead, s, 0) && Stands(u, s, |lead|) && |s| == |lead| + |u| + 1 && s[|lead| + |u|] == ' '
    ensures Tidied(s) == Print(t) + " "
  {
    SpelledStartsWithWord(u, t);
    WordFollows(u, s, |lead|);
    SkipsTo(s, 0, lead);
    EndTidied(s, |lead| + |u|);
    SpellingTidied(u, t, s, |lead|);
  }

  lemma {:induction false} EndTidied(s: Text, end: nat)
    requires |s| == end + 1 && s[end] == ' '
    ensures Follows(s, end) && TidiedFrom(s, end) == " "
  {
    assert SkipBlanks(s, end) == end + 1;
    FirstCopied(s, end, end);
  }

  // ---------------------------------------------------------------- parentheses and lines

  lemma {:induction false} BlanksBalanced(b: Text)
    requires Blanks(b)
    ensures SameCounts(b)
  {
    WordBalanced(b);
  }

  lemma {:induction false} ParenthesisedBalanced(w: Text, b: Text, inner: Text)
    requires SameCounts(w) && Blanks(b) && SameCounts(inner)
    ensures SameCounts(w + Parenthesised(b, inner))
  {
    BlanksBalanced(b);
    SameCountsConcat(w, b);
    Wrapped(w + b, inner);
    assert w + Parenthesised(b, inner) == w + b + "(" + inner + ")";
  }

  lemma {:induction false} SpellingBalanced(s: Text, t: Tree<Text>)
    requires Worded(t) && Spells(s, t)
    ensures SameCounts(s)
    decreases t, 1
  {
    WordBalanced(t.op);
    if t.kids != [] {
      var b, inner :| Blanks(b) && s == t.op + Parenthesised(b, inner) && SpellsAll(inner, t.kids);
      AllSpelledBalanced(inner, t.kids);
      ParenthesisedBalanced(t.op, b, inner);
    } else if s != t.op {
      var b, c :| Blanks(b) && Blanks(c) && s == t.op + EmptyPair(b, c);
      BlanksBalanced(c);
      ParenthesisedBalanced(t.op, b, c);
    }
  }

  lemma {:induction false} AllSpelledBalanced(s: Text, ts: seq<Tree<Text>>)
    requires AllWorded(ts) && SpellsAll(s, ts)
    ensures SameCounts(s)
    decreases ts, 2
  {
    if |ts| == 1 {
      SpellingBalanced(s, ts[0]);
    } else {
      var u, v :| s == u + " " + v && Spells(u, ts[0]) && SpellsAll(v, ts[1..]);
      SpellingBalanced(u, ts[0]);
      AllSpelledBalanced(v, ts[1..]);
      WordBalanced(" ");
      SameCountsConcat(u, " ");
      SameCountsConcat(u + " ", v);
    }
  }

  /** The lines one behind the other, each with a blank behind it. */
  function Together(lines: seq<Text>): Text {
    if lines == [] then "" else lines[0] + " " + Together(lines[1..])
  }

  function Opened(line: Text): int { Count(line, '(') - Count(line, ')') }

  /** Each line but the last leaves a parenthesis open. */
  predicate KeepsOpen(lines: seq<Text>, open: int) {
    |lines| > 1 ==> open + Opened(lines[0]) > 0 && KeepsOpen(lines[1..], open + Opened(lines[0]))
  }

  lemma {:induction false} OpenedConcat(s: Text, u: Text)
    ensures Opened(s + u) == Opened(s) + Opened(u)
  {
    CountConcat(s, u, '(');
    CountConcat(s, u, ')');
  }

  /** Such lines are gathered, and what is behind them is not looked at. */
  lemma {:induction false} LinesGathered(lines: seq<Text>, more: seq<Text>, text: Text, open: int)
    requires lines != [] && KeepsOpen(lines, open) && open + Opened(Together(lines)) == 0
    ensures Gathered(lines + more, text, open) == (text + Together(lines), 0)
  {
    var all, line, rest := lines + more, lines[0], Together(lines[1..]);
    OpenedConcat(line + " ", rest);
    OpenedConcat(line, " ");
    assert Opened(" ") == 0;
    assert all[0] == line && all[1..] == lines[1..] + more;
    assert text + (line + " ") + rest == text + (line + " " + rest);
    if |lines| > 1 {
      LinesGathered(lines[1..], more, text + (line + " "), open + Opened(line));
    } else {
      assert rest == "" && line + " " + rest == line + " ";
    }
  }

  // ---------------------------------------------------------------- the result

  /** The lines, one behind the other with blanks between, spell the tree behind some blanks. */
  ghost predicate Written(lines: seq<Text>, t: Tree<Text>) {
    && lines != [] && KeepsOpen(lines, 0)
    && exists lead, s :: Blanks(lead) && Spells(s, t) && Together(lines) == lead + s + " "
  }

  lemma {:induction false} WrittenIsSeen(t: Tree<Text>, lines: seq<Text>, more: seq<Text>)
    requires Worded(t) && Written(lines, t)
    ensures Gathered(lines + more, "", 0).1 == 0 && Seen(lines + more) == Print(t) + " "
  {
    var lead, s :| Blanks(lead) && Spells(s, t) && Together(lines) == lead + s + " ";
    SpellingBalanced(s, t);
    BlanksBalanced(lead);
    SameCountsConcat(lead, s);
    OpenedConcat(lead + s, " ");
    LinesGathered(lines, more, "", 0);
    assert "" + Together(lines) == Together(lines);
    SpelledTextTidied(lead, s, t);
    PrintedNulFree(t);
    NulFreeIsWhole(Print(t) + " ");
  }

  /** A tree of words is read from every way of writing it, whatever lines follow, if and
      only if all its leaves fit. */
  lemma {:induction false} WrittenIsReadExactly(t: Tree<Text>, lines: seq<Text>, more: seq<Text>)
    requires Worded(t) && Written(lines, t)
    ensures Gathered(lines + more, "", 0).1 == 0
    ensures var end := Steps(Nothing, ParseExpr(Seen(lines + more), 0).actions);
            end.Some? && (Whole(end.value) == [t] <==> Quoted(t, false))
  {
    WrittenIsSeen(t, lines, more);
    WordsReachParser(t, []);
    PrintedIsReadBackExactly(t, []);
    assert [Print(t)] + [] == [Print(t)];
  }

  /** Reading such lines gives the tree. */
  method ReadWritten(t: Tree<Text>, lines: seq<Text>, more: seq<Text>) returns (b: TreeBuilder)
    requires Worded(t) && Quoted(t, false) && Written(lines, t)
    ensures b.Valid() && b.Contents() == [t]
  {
    WrittenIsReadExactly(t, lines, more);
    var r := Read(lines + more);
    b := r.value;
    b.ContentsAreWhole();
  }

  /** The line +() is a way of writing +. */
  lemma {:induction false} BarePlusIsWritten()
    ensures Written(["+()"], Node("+", []))
  {
    var t: Tree<Text>, lines := Node("+", []), ["+()"];
    assert "+()" == t.op + EmptyPair("", "") && Blanks("");
    assert Spells("+()", t);
    assert lines[1..] == [] && Together(lines) == "" + "+()" + " ";
  }
}
