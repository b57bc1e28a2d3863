/** Program text taken apart at its variable names. */
module LabelParts {
  import opened Options
  import opened Labels

  /** Text without variables, and the name behind it. */
  datatype Part = Part(plain: string, name: string)

  predicate Plain(s: string) { '$' !in s }

  predicate Ends(s: string) { s == "" || Delimiter(s[0]) }

  /** Names end where text ends or a delimiter follows; behind a name, more text starts with
      a delimiter. */
  predicate Apart(parts: seq<Part>, last: string, behind: bool) {
    if parts == [] then Plain(last) && (behind ==> Ends(last))
    else
      && Plain(parts[0].plain) && Clean(parts[0].name) && Apart(parts[1..], last, true)
      && (behind ==> parts[0].plain != "" && Ends(parts[0].plain))
  }

  function TextOf(parts: seq<Part>, last: string): string {
    if parts == [] then last else parts[0].plain + ("$" + (parts[0].name + TextOf(parts[1..], last)))
  }

  function Names(parts: seq<Part>): seq<string> {
    if parts == [] then [] else [parts[0].name] + Names(parts[1..])
  }

  lemma {:induction false} TextEnds(parts: seq<Part>, last: string)
    requires Apart(parts, last, true)
    ensures Ends(TextOf(parts, last))
  {
  }

  // ---------------------------------------------------------------- every text can be taken apart

  lemma {:induction false} TakenApart(s: string)
    ensures exists parts, last :: Apart(parts, last, false) && s == TextOf(parts, last)
  {
    TakenApartBehind(s, false);
  }

  lemma {:induction false} TakenApartBehind(s: string, behind: bool)
    requires behind ==> Ends(s)
    ensures exists parts, last :: Apart(parts, last, behind) && s == TextOf(parts, last)
    decreases |s|
  {
    if Plain(s) {
      assert Apart([], s, behind) && TextOf([], s) == s;
    } else {
      var plain, named := AtDollar(s);
      var name, rest := AtDelimiter(named);
      TakenApartBehind(rest, true);
      var parts, last :| Apart(parts, last, true) && rest == TextOf(parts, last);
      PartInFront(Part(plain, name), parts, last, s, rest, behind);
    }
  }

  lemma {:induction false} AtDollar(s: string) returns (plain: string, rest: string)
    requires !Plain(s)
    ensures s == plain + ("$" + rest) && Plain(plain) && |rest| < |s|
  {
    var k := FirstOf(s, (c: char) => c == '$');
    plain, rest := s[..k], s[k + 1..];
  }

  lemma {:induction false} AtDelimiter(s: string) returns (name: string, rest: string)
    ensures s == name + rest && Clean(name) && Ends(rest)
  {
    var k := FirstOf(s, (c: char) => Delimiter(c));
    name, rest := s[..k], s[k..];
  }

  lemma {:induction false} PartInFront(part: Part, parts: seq<Part>, last: string, s: string, rest: string, behind: bool)
    requires Apart(parts, last, true) && rest == TextOf(parts, last) && Plain(part.plain) && Clean(part.name)
    requires s == part.plain + ("$" + (part.name + rest)) && (behind ==> Ends(s))
    ensures exists all, end :: Apart(all, end, behind) && s == TextOf(all, end)
  {
    var all := [part] + parts;
    assert all[0] == part && all[1..] == parts;
    if behind { assert s[0] == if part.plain == "" then '$' else part.plain[0]; }
    assert Apart(all, last, behind) && s == TextOf(all, last);
  }

  /** Position of the first character of a kind; the length when there is none. */
  function FirstOf(s: string, p: char -> bool): (k: nat)
    ensures k <= |s| && (forall i | 0 <= i < k :: !p(s[i])) && (k < |s| ==> p(s[k]))
    ensures (exists i | 0 <= i < |s| :: p(s[i])) ==> k < |s|
  {
    if s == "" || p(s[0]) then 0 else 1 + FirstOf(s[1..], p)
  }

  // ---------------------------------------------------------------- the names that are found

  lemma {:induction false} PlainScanned(p: string, rest: string, found: seq<string>)
    requires Plain(p)
    ensures ScanVariables(p + rest, false, "", found) == ScanVariables(rest, false, "", found)
  {
    if p == "" {
      assert p + rest == rest;
    } else {
      assert (p + rest)[0] == p[0] && (p + rest)[1..] == p[1..] + rest;
      PlainScanned(p[1..], rest, found);
    }
  }

  lemma {:induction false} NameScanned(name: string, before: string, rest: string, found: seq<string>)
    requires Clean(name) && Ends(rest)
    ensures ScanVariables(name + rest, true, before, found) == ScanVariables(rest, false, "", found + [before + name])
  {
    if name == "" {
      assert name + rest == rest && before + name == before;
      assert rest != "" ==> Delimiter(rest[0]);
    } else {
      assert (name + rest)[0] == name[0] && (name + rest)[1..] == name[1..] + rest;
      NameScanned(name[1..], before + [name[0]], rest, found);
      assert before + [name[0]] + name[1..] == before + name;
    }
  }

  /** The scan finds the names of the parts, in order. */
  lemma {:induction false} NamesFound(parts: seq<Part>, last: string, behind: bool, found: seq<string>)
    requires Apart(parts, last, behind)
    ensures ScanVariables(TextOf(parts, last), false, "", found) == found + Names(parts)
    decreases parts
  {
    if parts == [] {
      PlainScanned(last, "", found);
      assert last + "" == last && found + [] == found;
    } else {
      var name, rest := parts[0].name, TextOf(parts[1..], last);
      TextEnds(parts[1..], last);
      PlainScanned(parts[0].plain, "$" + (name + rest), found);
      assert ("$" + (name + rest))[1..] == name + rest;
      NameScanned(name, "", rest, found);
      assert "" + name == name;
      NamesFound(parts[1..], last, true, found + [name]);
      assert found + [name] + Names(parts[1..]) == found + ([name] + Names(parts[1..]));
    }
  }

  // ---------------------------------------------------------------- the text with other names

  /** The parts with their names renamed; nothing where one cannot be. */
  function RenamedParts(parts: seq<Part>, f: Renaming): Option<seq<Part>> {
    if parts == [] then Some([])
    else
      var m, rest := f(parts[0].name), RenamedParts(parts[1..], f);
      if m.Some? && rest.Some? then Some([Part(parts[0].plain, m.value)] + rest.value) else None
  }

  /** s in front of what comes of the rest. */
  function InFront(s: string, rest: Option<string>): Option<string> {
    if rest.Some? then Some(s + rest.value) else None
  }

  lemma {:induction false} PlainRenamed(p: string, rest: string, f: Renaming)
    requires Plain(p)
    ensures Renamed(p + rest, false, "", f) == InFront(p, Renamed(rest, false, "", f))
  {
    var r := Renamed(rest, false, "", f);
    if p == "" {
      assert p + rest == rest;
      assert r.Some? ==> p + r.value == r.value;
    } else {
      assert (p + rest)[0] == p[0] && (p + rest)[1..] == p[1..] + rest;
      PlainRenamed(p[1..], rest, f);
      assert r.Some? ==> "" + [p[0]] + (p[1..] + r.value) == p + r.value;
    }
  }

  lemma {:induction false} NameRenamed(name: string, rest: string, f: Renaming)
    requires Clean(name) && Ends(rest)
    ensures Renamed(name + rest, true, "", f) ==
            if f(name).Some? then InFront(f(name).value, Renamed(rest, false, "", f)) else None
  {
    RenamedClean(name, "", rest, f);
    assert "" + name == name;
    if rest == "" {
      assert f(name).Some? ==> f(name).value + "" == f(name).value;
    } else if f(name).Some? {
      var r := Renamed(rest[1..], false, "", f);
      assert r.Some? ==> f(name).value + [rest[0]] + r.value == f(name).value + ("" + [rest[0]] + r.value);
    }
  }

  /** Renaming changes the names of the parts and nothing else, and fails where one of them
      cannot be renamed. */
  lemma {:induction false} NamesChanged(parts: seq<Part>, last: string, behind: bool, f: Renaming)
    requires Apart(parts, last, behind)
    ensures var r := RenamedParts(parts, f);
            Renamed(TextOf(parts, last), false, "", f) == if r.Some? then Some(TextOf(r.value, last)) else None
    decreases parts
  {
    if parts == [] {
      PlainRenamed(last, "", f);
      assert last + "" == last;
    } else {
      var plain, name, rest := parts[0].plain, parts[0].name, TextOf(parts[1..], last);
      TextEnds(parts[1..], last);
      NamesChanged(parts[1..], last, true, f);
      NameRenamed(name, rest, f);
      DollarRenamed(name + rest, f);
      PlainRenamed(plain, "$" + (name + rest), f);
      var more := RenamedParts(parts[1..], f);
      if f(name).Some? && more.Some? {
        var head := Part(plain, f(name).value);
        assert ([head] + more.value)[1..] == more.value;
      }
    }
  }

  lemma {:induction false} DollarRenamed(rest: string, f: Renaming)
    ensures Renamed("$" + rest, false, "", f) == InFront("$", Renamed(rest, true, "", f))
  {
    var s := "$" + rest;
    assert s[0] == '$' && s[1..] == rest;
    var r := Renamed(rest, true, "", f);
    assert r.Some? ==> "" + [s[0]] + r.value == "$" + r.value;
  }
}
