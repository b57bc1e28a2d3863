/** Names of arguments: a dollar sign followed by a label, or by the argument's
    decimal index where there are no labels. */
module Labels {
  import opened Options

  // ---------------------------------------------------------------- decimal notation

  function Digit(d: nat): char
    requires d < 10
  {
    "0123456789"[d]
  }

  function DigitValue(c: char): (d: nat)
    ensures d < 10
  {
    if '0' <= c <= '9' then c as int - '0' as int else 0
  }

  function Decimal(n: nat): (s: string)
    ensures s != [] && forall i | 0 <= i < |s| :: '0' <= s[i] <= '9'
  {
    if n < 10 then [Digit(n)] else Decimal(n / 10) + [Digit(n % 10)]
  }

  function DecimalValue(s: string): nat {
    if s == [] then 0 else 10 * DecimalValue(s[..|s| - 1]) + DigitValue(s[|s| - 1])
  }

  lemma {:induction false} DecimalRoundTrip(n: nat)
    ensures DecimalValue(Decimal(n)) == n
  {
    if n >= 10 {
      DecimalRoundTrip(n / 10);
      assert Decimal(n)[..|Decimal(n)| - 1] == Decimal(n / 10);
    }
  }

  // ---------------------------------------------------------------- labels

  /** Ends a variable name in program text. */
  predicate Delimiter(c: char) { c == ' ' || c == ')' || c == '\n' }

  predicate Clean(s: string) { forall i | 0 <= i < |s| :: !Delimiter(s[i]) }

  predicate GoodLabels(labels: seq<string>) {
    && (forall i | 0 <= i < |labels| :: Clean(labels[i]))
    && (forall i, j | 0 <= i < j < |labels| :: labels[i] != labels[j])
  }

  /** Argument i, counted from zero, has a label. */
  predicate Labelled(i: nat, labels: seq<string>) { labels != [] ==> i < |labels| }

  function ArgLabel(i: nat, labels: seq<string>): string
    requires Labelled(i, labels)
  {
    if labels != [] then labels[i] else Decimal(i + 1)
  }

  lemma {:induction false} ArgLabelInjective(i: nat, j: nat, labels: seq<string>)
    requires GoodLabels(labels) && Labelled(i, labels) && Labelled(j, labels)
    requires ArgLabel(i, labels) == ArgLabel(j, labels)
    ensures i == j
  {
    DecimalRoundTrip(i + 1);
    DecimalRoundTrip(j + 1);
  }

  lemma {:induction false} ArgLabelClean(i: nat, labels: seq<string>)
    requires GoodLabels(labels) && Labelled(i, labels)
    ensures Clean(ArgLabel(i, labels))
  {
  }

  // ---------------------------------------------------------------- finding variables in program text

  /** The rest of the scan, with the name being matched, if any. */
  function ScanVariables(s: string, matching: bool, name: string, found: seq<string>): seq<string>
    decreases s
  {
    if s == [] then
      if matching then found + [name] else found
    else if !matching then
      ScanVariables(s[1..], s[0] == '$', name, found)
    else if Delimiter(s[0]) then
      ScanVariables(s[1..], false, "", found + [name])
    else
      ScanVariables(s[1..], true, name + [s[0]], found)
  }

  /** All variable names in a piece of program text. */
  method ParseComboVariables(ce: string) returns (res: seq<string>)
    ensures res == ScanVariables(ce, false, "", [])
  {
    res := [];
    var name := "";
    var matching := false;
    for i := 0 to |ce|
      invariant ScanVariables(ce, false, "", []) == ScanVariables(ce[i..], matching, name, res)
    {
      if !matching {
        if ce[i] == '$' { matching := true; }
      } else if ce[i] == ' ' || ce[i] == ')' || ce[i] == '\n' {
        res := res + [name];
        name := "";
        matching := false;
      } else {
        name := name + [ce[i]];
      }
    }
    if matching { res := res + [name]; }
  }

  lemma {:induction false} ScanClean(s: string, name: string, found: seq<string>)
    requires Clean(s)
    ensures ScanVariables(s, true, name, found) == found + [name + s]
  {
    if s == [] {
      assert name + s == name;
    } else {
      ScanClean(s[1..], name + [s[0]], found);
      assert name + [s[0]] + s[1..] == name + s;
    }
  }

  /** A clean label is read back from its name. */
  lemma {:induction false} NameRoundTrip(text: string)
    requires Clean(text)
    ensures ScanVariables("$" + text, false, "", []) == [text]
  {
    assert ("$" + text)[1..] == text;
    ScanClean(text, "", []);
    assert "" + text == text;
  }

  // ---------------------------------------------------------------- place holders and labels

  type Renaming = string -> Option<string>

  /** The text with every variable name renamed; nothing if some name cannot be. */
  function Renamed(s: string, matching: bool, name: string, f: Renaming): Option<string>
    decreases s
  {
    if s == [] then if matching then f(name) else Some("")
    else if matching && !Delimiter(s[0]) then Renamed(s[1..], true, name + [s[0]], f)
    else
      var head := if matching then f(name) else Some("");
      var rest := Renamed(s[1..], !matching && s[0] == '$', "", f);
      if head.Some? && rest.Some? then Some(head.value + [s[0]] + rest.value) else None
  }

  predicate Digits(s: string) { s != [] && forall i | 0 <= i < |s| :: '0' <= s[i] <= '9' }

  /** The digits of a number, behind a plus sign if there is one. */
  function Unsigned(n: string): string { if n != [] && n[0] == '+' then n[1..] else n }

  /** The text is a number for which there is a label. */
  predicate Indexes(n: string, labels: seq<string>) {
    Digits(Unsigned(n)) && 1 <= DecimalValue(Unsigned(n)) <= |labels|
  }

  /** The label of a place holder. */
  function LabelFor(labels: seq<string>, n: string): Option<string> {
    if Indexes(n, labels) then Some(labels[DecimalValue(Unsigned(n)) - 1]) else None
  }

  function LabelOf(labels: seq<string>): Renaming { n => LabelFor(labels, n) }

  /** Position of the first occurrence; the length when there is none. */
  function IndexOf(labels: seq<string>, l: string): (i: nat)
    ensures i <= |labels| && (i < |labels| ==> labels[i] == l)
    ensures (l in labels <==> i < |labels|) && forall j | 0 <= j < i :: labels[j] != l
  {
    if labels == [] then 0 else if labels[0] == l then 0 else 1 + IndexOf(labels[1..], l)
  }

  /** The place holder of a label. */
  function PlaceOf(labels: seq<string>): Renaming {
    n => if n in labels then Some(Decimal(IndexOf(labels, n) + 1)) else None
  }

  method FindLabel(labels: seq<string>, n: string) returns (i: nat)
    ensures i == IndexOf(labels, n)
  {
    for k := 0 to |labels|
      invariant forall j | 0 <= j < k :: labels[j] != n
    {
      if labels[k] == n { return k; }
    }
    i := |labels|;
  }

  /** What is left to do once res has been written, with the name being matched. */
  ghost predicate RenamingTo(all: Option<string>, res: string, rest: Option<string>) {
    if rest.Some? then all == Some(res + rest.value) else all == None
  }

  lemma {:induction false} StepPlain(all: Option<string>, res: string, s: string, f: Renaming)
    requires s != [] && RenamingTo(all, res, Renamed(s, false, "", f))
    ensures RenamingTo(all, res + [s[0]], Renamed(s[1..], s[0] == '$', "", f))
  {
    var rest := Renamed(s[1..], s[0] == '$', "", f);
    if rest.Some? { assert res + ("" + [s[0]] + rest.value) == res + [s[0]] + rest.value; }
  }

  lemma {:induction false} StepName(all: Option<string>, res: string, s: string, name: string, f: Renaming)
    requires s != [] && Delimiter(s[0]) && RenamingTo(all, res, Renamed(s, true, name, f))
    ensures f(name) == None ==> all == None
    ensures f(name).Some? ==> RenamingTo(all, res + (f(name).value + [s[0]]), Renamed(s[1..], false, "", f))
  {
    var rest := Renamed(s[1..], false, "", f);
    if f(name).Some? && rest.Some? {
      var m := f(name).value;
      assert res + (m + [s[0]] + rest.value) == res + (m + [s[0]]) + rest.value;
    }
  }

  lemma {:induction false} StepEnd(all: Option<string>, res: string, s: string, matching: bool, name: string, f: Renaming)
    requires s == [] && RenamingTo(all, res, Renamed(s, matching, name, f))
    ensures all == if !matching then Some(res) else if f(name).Some? then Some(res + f(name).value) else None
  {
    assert res + "" == res;
  }

  /** Puts labels for place holders. */
  method Ph2l(ce: string, labels: seq<string>) returns (r: Option<string>)
    ensures r == Renamed(ce, false, "", LabelOf(labels))
  {
    var res, name, matching := "", "", false;
    ghost var f, all := LabelOf(labels), Renamed(ce, false, "", LabelOf(labels));
    assert ce[0..] == ce && (all.Some? ==> "" + all.value == all.value);
    for i := 0 to |ce|
      invariant !matching ==> name == ""
      invariant RenamingTo(all, res, Renamed(ce[i..], matching, name, f))
    {
      assert ce[i..][0] == ce[i] && ce[i..][1..] == ce[i + 1..];
      if !matching {
        StepPlain(all, res, ce[i..], f);
        res := res + [ce[i]];
        matching := ce[i] == '$';
      } else if ce[i] == ' ' || ce[i] == ')' || ce[i] == '\n' {
        StepName(all, res, ce[i..], name, f);
        var found := LabelFor(labels, name);
        if found == None { return None; }
        res := res + (found.value + [ce[i]]);
        name, matching := "", false;
      } else {
        name := name + [ce[i]];
      }
    }
    StepEnd(all, res, ce[|ce|..], matching, name, f);
    if matching {
      var found := LabelFor(labels, name);
      if found == None { return None; }
      res := res + found.value;
    }
    r := Some(res);
  }

  /** Puts place holders for labels. */
  method L2ph(ce: string, labels: seq<string>) returns (r: Option<string>)
    ensures r == Renamed(ce, false, "", PlaceOf(labels))
  {
    var res, name, matching := "", "", false;
    ghost var f, all := PlaceOf(labels), Renamed(ce, false, "", PlaceOf(labels));
    assert ce[0..] == ce && (all.Some? ==> "" + all.value == all.value);
    for i := 0 to |ce|
      invariant !matching ==> name == ""
      invariant RenamingTo(all, res, Renamed(ce[i..], matching, name, f))
    {
      assert ce[i..][0] == ce[i] && ce[i..][1..] == ce[i + 1..];
      if !matching {
        StepPlain(all, res, ce[i..], f);
        res := res + [ce[i]];
        matching := ce[i] == '$';
      } else if ce[i] == ' ' || ce[i] == ')' || ce[i] == '\n' {
        StepName(all, res, ce[i..], name, f);
        var k := FindLabel(labels, name);
        if k == |labels| { return None; }
        res := res + (Decimal(k + 1) + [ce[i]]);
        name, matching := "", false;
      } else {
        name := name + [ce[i]];
      }
    }
    StepEnd(all, res, ce[|ce|..], matching, name, f);
    if matching {
      var k := FindLabel(labels, name);
      if k == |labels| { return None; }
      res := res + Decimal(k + 1);
    }
    r := Some(res);
  }

  /** Names that g takes back to what f renamed. */
  ghost predicate UndoneBy(f: Renaming, g: Renaming, names: seq<string>) {
    forall n | n in names :: f(n).Some? && Clean(f(n).value) && g(f(n).value) == Some(n)
  }

  /** The names still to come, when a name is being matched. */
  lemma {:induction false} ScanGrows(s: string, matching: bool, name: string, found: seq<string>)
    ensures ScanVariables(s, matching, name, found) == found + ScanVariables(s, matching, name, [])
    decreases s
  {
    if s == [] {
    } else if !matching {
      ScanGrows(s[1..], s[0] == '$', name, found);
    } else if Delimiter(s[0]) {
      ScanGrows(s[1..], false, "", found + [name]);
      ScanGrows(s[1..], false, "", [name]);
      assert [] + [name] == [name];
      assert found + [name] + ScanVariables(s[1..], false, "", []) == found + ([name] + ScanVariables(s[1..], false, "", []));
    } else {
      ScanGrows(s[1..], true, name + [s[0]], found);
    }
  }

  /** Reading a clean name in front of a text. */
  lemma {:induction false} RenamedClean(m: string, name: string, s: string, g: Renaming)
    requires Clean(m)
    ensures Renamed(m + s, true, name, g) == Renamed(s, true, name + m, g)
  {
    if m == [] {
      assert m + s == s && name + m == name;
    } else {
      assert (m + s)[0] == m[0] && (m + s)[1..] == m[1..] + s;
      RenamedClean(m[1..], name + [m[0]], s, g);
      assert name + [m[0]] + m[1..] == name + m;
    }
  }

  /** Renaming the names of a renamed text back gives the text back. */
  lemma {:induction false} RenamingUndone(s: string, matching: bool, name: string, f: Renaming, g: Renaming)
    requires !matching ==> name == ""
    requires UndoneBy(f, g, ScanVariables(s, matching, name, []))
    ensures Renamed(s, matching, name, f).Some?
    ensures Renamed(Renamed(s, matching, name, f).value, matching, "", g) == Some(if matching then name + s else s)
    decreases s
  {
    if s == [] {
      if matching {
        assert name + s == name;
        RenamedClean(f(name).value, "", "", g);
        assert f(name).value + "" == f(name).value && "" + f(name).value == f(name).value;
      }
    } else if matching && !Delimiter(s[0]) {
      RenamingUndone(s[1..], true, name + [s[0]], f, g);
      assert name + [s[0]] + s[1..] == name + s;
    } else {
      var next := !matching && s[0] == '$';
      HeadNames(s, matching, name);
      RenamingUndone(s[1..], next, "", f, g);
      assert "" + s[1..] == s[1..];
      var rest := Renamed(s[1..], next, "", f).value;
      if matching { NameUndone(s, name, f, g, rest); } else { PlainUndone(s, f, g, rest); }
    }
  }

  /** The names behind the first character, and the one that ends with it. */
  lemma {:induction false} HeadNames(s: string, matching: bool, name: string)
    requires s != [] && (matching ==> Delimiter(s[0])) && (!matching ==> name == "")
    ensures ScanVariables(s, matching, name, [])
         == (if matching then [name] else []) + ScanVariables(s[1..], !matching && s[0] == '$', "", [])
  {
    if matching {
      assert [] + [name] == [name];
      ScanGrows(s[1..], false, "", [name]);
    }
  }

  lemma {:induction false} NameUndone(s: string, name: string, f: Renaming, g: Renaming, rest: string)
    requires s != [] && Delimiter(s[0]) && f(name).Some? && Clean(f(name).value) && g(f(name).value) == Some(name)
    requires Renamed(s[1..], false, "", f) == Some(rest) && Renamed(rest, false, "", g) == Some(s[1..])
    ensures Renamed(s, true, name, f).Some?
    ensures Renamed(Renamed(s, true, name, f).value, true, "", g) == Some(name + s)
  {
    var m, tail := f(name).value, [s[0]] + rest;
    assert m + [s[0]] + rest == m + tail;
    NameComesBack(s, name, g, m, tail, rest);
  }

  lemma {:induction false} NameComesBack(s: string, name: string, g: Renaming, m: string, tail: string, rest: string)
    requires s != [] && Delimiter(s[0]) && Clean(m) && g(m) == Some(name) && tail == [s[0]] + rest
    requires Renamed(rest, false, "", g) == Some(s[1..])
    ensures Renamed(m + tail, true, "", g) == Some(name + s)
  {
    assert tail[1..] == rest && "" + m == m;
    RenamedClean(m, "", tail, g);
    assert name + [s[0]] + s[1..] == name + s;
  }

  lemma {:induction false} PlainUndone(s: string, f: Renaming, g: Renaming, rest: string)
    requires s != []
    requires Renamed(s[1..], s[0] == '$', "", f) == Some(rest)
    requires Renamed(rest, s[0] == '$', "", g) == Some(s[1..])
    ensures Renamed(s, false, "", f).Some?
    ensures Renamed(Renamed(s, false, "", f).value, false, "", g) == Some(s)
  {
    var tail := [s[0]] + rest;
    assert "" + [s[0]] + rest == tail && tail[1..] == rest;
    assert "" + [s[0]] + s[1..] == s;
  }

  /** Renamings that take names to names without delimiters. */
  ghost predicate Cleanly(f: Renaming, g: Renaming, names: seq<string>) {
    forall n | n in names ::
      f(n).Some? && Clean(f(n).value) && (g(f(n).value).Some? ==> Clean(g(f(n).value).value))
  }

  function FirstDelimiter(s: string): nat {
    if s == [] || Delimiter(s[0]) then 0 else 1 + FirstDelimiter(s[1..])
  }

  lemma {:induction false} FirstBehindClean(a: string, x: string, c: char)
    requires Clean(a) && Delimiter(c)
    ensures FirstDelimiter(a + [c] + x) == |a|
  {
    var s := a + [c] + x;
    if a == [] {
      assert s[0] == c;
    } else {
      assert s[0] == a[0] && s[1..] == a[1..] + [c] + x;
      FirstBehindClean(a[1..], x, c);
    }
  }

  /** The first delimiter parts a text in one way. */
  lemma {:induction false} PartsAlike(a: string, x: string, b: string, y: string, c: char)
    requires Clean(a) && Clean(b) && Delimiter(c) && a + [c] + x == b + [c] + y
    ensures a == b && x == y
  {
    FirstBehindClean(a, x, c);
    FirstBehindClean(b, y, c);
    var s := a + [c] + x;
    assert s[..|a|] == a && s[..|b|] == b && s[|a| + 1..] == x && s[|b| + 1..] == y;
  }

  /** Where renaming back gives the text back, each name met has come back. */
  lemma {:induction false} OnlyUndone(s: string, matching: bool, name: string, f: Renaming, g: Renaming)
    requires Clean(name) && (!matching ==> name == "")
    requires Cleanly(f, g, ScanVariables(s, matching, name, []))
    ensures Renamed(s, matching, name, f).Some?
    ensures Renamed(Renamed(s, matching, name, f).value, matching, "", g) == Some(name + s) ==>
            UndoneBy(f, g, ScanVariables(s, matching, name, []))
    decreases s
  {
    if s == [] {
      if matching { OnlyLastUndone(name, f, g); }
    } else if matching && !Delimiter(s[0]) {
      OnlyUndone(s[1..], true, name + [s[0]], f, g);
      assert name + [s[0]] + s[1..] == name + s;
    } else {
      var next := !matching && s[0] == '$';
      HeadNames(s, matching, name);
      OnlyUndone(s[1..], next, "", f, g);
      assert "" + s[1..] == s[1..];
      var rest := Renamed(s[1..], next, "", f).value;
      if matching { OnlyNameUndone(s, name, f, g, rest); } else { OnlyPlainUndone(s, f, g, rest); }
    }
  }

  lemma {:induction false} OnlyLastUndone(name: string, f: Renaming, g: Renaming)
    requires f(name).Some? && Clean(f(name).value)
    ensures Renamed(f(name).value, true, "", g) == g(f(name).value) && name + "" == name
  {
    RenamedClean(f(name).value, "", "", g);
    assert f(name).value + "" == f(name).value && "" + f(name).value == f(name).value;
  }

  lemma {:induction false} OnlyNameUndone(s: string, name: string, f: Renaming, g: Renaming, rest: string)
    requires s != [] && Delimiter(s[0]) && Clean(name) && Cleanly(f, g, [name])
    requires Renamed(s[1..], false, "", f) == Some(rest)
    ensures Renamed(s, true, name, f).Some?
    ensures Renamed(Renamed(s, true, name, f).value, true, "", g) == Some(name + s) ==>
            g(f(name).value) == Some(name) && Renamed(rest, false, "", g) == Some(s[1..])
  {
    assert name in [name];
    var m, tail := f(name).value, [s[0]] + rest;
    assert m + [s[0]] + rest == m + tail && tail[1..] == rest && "" + m == m;
    RenamedClean(m, "", tail, g);
    var head, back := g(m), Renamed(rest, false, "", g);
    if head.Some? && back.Some? && head.value + [s[0]] + back.value == name + s {
      assert name + [s[0]] + s[1..] == name + s;
      PartsAlike(head.value, back.value, name, s[1..], s[0]);
    }
  }

  lemma {:induction false} OnlyPlainUndone(s: string, f: Renaming, g: Renaming, rest: string)
    requires s != [] && Renamed(s[1..], s[0] == '$', "", f) == Some(rest)
    ensures Renamed(s, false, "", f).Some?
    ensures Renamed(Renamed(s, false, "", f).value, false, "", g) == Some("" + s) ==>
            Renamed(rest, s[0] == '$', "", g) == Some(s[1..])
  {
    var tail := [s[0]] + rest;
    assert "" + [s[0]] + rest == tail && tail[1..] == rest && "" + s == s;
    var back := Renamed(rest, s[0] == '$', "", g);
    if back.Some? { assert ("" + [s[0]] + back.value)[1..] == back.value; }
  }

  /** Renaming back gives a text back if and only if each name met comes back. */
  lemma {:induction false} RenamingUndoneExactly(s: string, f: Renaming, g: Renaming)
    requires Cleanly(f, g, ScanVariables(s, false, "", []))
    ensures Renamed(s, false, "", f).Some?
    ensures Renamed(Renamed(s, false, "", f).value, false, "", g) == Some(s) <==> UndoneBy(f, g, ScanVariables(s, false, "", []))
  {
    OnlyUndone(s, false, "", f, g);
    assert "" + s == s;
    if UndoneBy(f, g, ScanVariables(s, false, "", [])) { RenamingUndone(s, false, "", f, g); }
  }

  /** A place holder in plain decimal notation, of a label that does not occur before. */
  predicate Canonical(n: string, labels: seq<string>)
    requires Indexes(n, labels)
  {
    var i := DecimalValue(Unsigned(n)) - 1;
    n == Decimal(i + 1) && labels[i] !in labels[..i]
  }

  lemma {:induction false} CanonicalComesBack(n: string, labels: seq<string>)
    requires Indexes(n, labels)
    ensures PlaceOf(labels)(LabelOf(labels)(n).value) == Some(n) <==> Canonical(n, labels)
  {
    var i := DecimalValue(Unsigned(n)) - 1;
    var j := IndexOf(labels, labels[i]);
    DecimalRoundTrip(j + 1);
    assert '0' <= Decimal(j + 1)[0] <= '9';
    if j < i { assert labels[..i][j] == labels[i]; }
  }

  /** Exactly when labels put for place holders are turned back into these. */
  lemma {:induction false} Ph2lThenL2phExactly(ce: string, labels: seq<string>)
    requires forall i | 0 <= i < |labels| :: Clean(labels[i])
    requires forall n | n in ScanVariables(ce, false, "", []) :: Indexes(n, labels)
    ensures var r := Renamed(ce, false, "", LabelOf(labels));
      r.Some? && (Renamed(r.value, false, "", PlaceOf(labels)) == Some(ce) <==>
                  forall n | n in ScanVariables(ce, false, "", []) :: Canonical(n, labels))
  {
    var f, g, names := LabelOf(labels), PlaceOf(labels), ScanVariables(ce, false, "", []);
    forall n | n in names ensures f(n).Some? && (g(f(n).value) == Some(n) <==> Canonical(n, labels)) {
      CanonicalComesBack(n, labels);
    }
    forall k: nat ensures Clean(Decimal(k)) { DecimalClean(k); }
    RenamingUndoneExactly(ce, f, g);
  }

  /** The index of a label in plain decimal notation. */
  predicate PlaceHolder(n: string, labels: seq<string>) {
    1 <= DecimalValue(n) <= |labels| && n == Decimal(DecimalValue(n))
  }

  lemma {:induction false} LabelReadBack(labels: seq<string>, n: string)
    requires GoodLabels(labels) && PlaceHolder(n, labels)
    ensures var m := LabelOf(labels)(n);
      m.Some? && Clean(m.value) && PlaceOf(labels)(m.value) == Some(n)
  {
    var i := DecimalValue(n) - 1;
    assert Unsigned(n) == n by { assert '0' <= n[0] <= '9'; }
    assert Digits(n) && Indexes(n, labels);
    assert IndexOf(labels, labels[i]) == i;
  }

  /** Place holders in plain decimal notation come back from the labels that replaced them. */
  lemma {:induction false} Ph2lThenL2ph(ce: string, labels: seq<string>)
    requires GoodLabels(labels)
    requires forall n | n in ScanVariables(ce, false, "", []) :: PlaceHolder(n, labels)
    ensures var r := Renamed(ce, false, "", LabelOf(labels));
      r.Some? && Renamed(r.value, false, "", PlaceOf(labels)) == Some(ce)
  {
    forall n | n in ScanVariables(ce, false, "", [])
      ensures var m := LabelOf(labels)(n);
        m.Some? && Clean(m.value) && PlaceOf(labels)(m.value) == Some(n)
    {
      LabelReadBack(labels, n);
    }
    RenamingUndone(ce, false, "", LabelOf(labels), PlaceOf(labels));
  }

  lemma {:induction false} IndexReadBack(labels: seq<string>, n: string)
    requires n in labels
    ensures var d := Decimal(IndexOf(labels, n) + 1);
      Clean(d) && LabelOf(labels)(d) == Some(n)
  {
    var i := IndexOf(labels, n);
    var d := Decimal(i + 1);
    DecimalRoundTrip(i + 1);
    assert Unsigned(d) == d by { assert '0' <= d[0] <= '9'; }
    assert Digits(d) && Indexes(d, labels);
    DecimalClean(i + 1);
  }

  lemma {:induction false} DecimalClean(n: nat)
    ensures Clean(Decimal(n))
  {
    assert forall i | 0 <= i < |Decimal(n)| :: '0' <= Decimal(n)[i] <= '9';
  }

  /** Labels come back from the place holders that replaced them, whether or not a
      label occurs twice in the list. */
  lemma {:induction false} L2phThenPh2l(ce: string, labels: seq<string>)
    requires forall n | n in ScanVariables(ce, false, "", []) :: n in labels
    ensures var r := Renamed(ce, false, "", PlaceOf(labels));
      r.Some? && Renamed(r.value, false, "", LabelOf(labels)) == Some(ce)
  {
    forall n | n in ScanVariables(ce, false, "", [])
      ensures var m := PlaceOf(labels)(n);
        m.Some? && Clean(m.value) && LabelOf(labels)(m.value) == Some(n)
    {
      IndexReadBack(labels, n);
    }
    RenamingUndone(ce, false, "", PlaceOf(labels), LabelOf(labels));
  }
}
