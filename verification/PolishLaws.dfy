/** The laws of the polishing passes: a second run fixes nothing, and no line is lost. */
module PolishLaws {
  import opened Sequences
  import opened Polish

  // ----- Recognizing the license -----

  lemma {:induction false} TrimRightKeepsMark(s: string)
    requires "/*" <= s
    ensures "/*" <= TrimRight(s) && |TrimRight(s)| <= |s|
  {
    assert s[0] == '/' && s[1] == '*';
    if IsSpace(s[|s| - 1]) {
      assert "/*" <= s[..|s| - 1];
      TrimRightKeepsMark(s[..|s| - 1]);
    }
  }

  lemma EntryIsMark(license: Lines)
    requires BlockComment(license)
    ensures Entry(license) == "/*" && StartsWith(license[0], "/*")
  {
    assert license[0][0] == '/';
    TrimRightKeepsMark(license[0]);
  }

  /** The license stands at o, behind blank lines only. */
  ghost predicate Licensed(license: Lines, ls: Lines, o: nat) {
    && o + |license| <= |ls| && ls[o..o + |license|] == license
    && forall j :: 0 <= j < o ==> Blank(ls[j])
  }

  /** A comment opens at o, behind blank lines only, and no line closes it. */
  ghost predicate Unclosed(ls: Lines, o: nat) {
    && o < |ls| && StartsWith(ls[o], "/*")
    && (forall j :: 0 <= j < o ==> Blank(ls[j]))
    && (forall j :: o <= j < |ls| ==> !StartsWith(ls[j], "*/"))
  }

  lemma LicensedFixed(license: Lines, ls: Lines, o: nat)
    requires BlockComment(license) && Licensed(license, ls, o)
    ensures LicensePass(license, ls) == (ls, false)
    ensures Find(ls, 0, "/*", true) == o && Find(ls, o, "*/", false) == o + |license| - 1
    ensures Find(ls, 0, "*/", false) == o + |license| - 1
  {
    EntryIsMark(license);
    var c := o + |license| - 1;
    assert forall k :: 0 <= k < |license| ==> ls[o + k] == license[k];
    FirstTextIs(ls, 0, "/*", o);
    forall j | 0 <= j < c ensures !StartsWith(ls[j], "*/") {
      if j >= o {
        assert ls[j] == license[j - o];
      }
    }
    FindIs(ls, o, "*/", c);
    FindIs(ls, 0, "*/", c);
  }

  lemma UnclosedFixed(license: Lines, ls: Lines, o: nat)
    requires BlockComment(license) && Unclosed(ls, o)
    ensures LicensePass(license, ls) == (ls, false)
  {
    EntryIsMark(license);
    FirstTextIs(ls, 0, "/*", o);
    FindNone(ls, o, "*/");
  }

  lemma InsertedLicense(license: Lines, ls: Lines, i: nat)
    requires i <= |ls| && forall j :: 0 <= j < i ==> Blank(ls[j])
    ensures Licensed(license, InsertLicense(license, ls, i), i)
  {
    var r := InsertLicense(license, ls, i);
    assert forall j :: 0 <= j < i ==> r[j] == ls[j];
    assert r[i..i + |license|] == license;
  }

  /** After the license pass the license stands in front, or an unclosed comment kept it away. */
  lemma LicenseOutcome(license: Lines, ls: Lines) returns (o: nat)
    requires BlockComment(license)
    ensures Licensed(license, LicensePass(license, ls).0, o) || Unclosed(LicensePass(license, ls).0, o)
  {
    EntryIsMark(license);
    o := Find(ls, 0, "/*", true);
    if o == |ls| {
      InsertedLicense(license, ls, 0);
      o := 0;
    } else {
      FirstTextMeans(ls, 0, "/*");
      var c := Find(ls, o, "*/", false);
      FindMeans(ls, o, "*/");
      if c < |ls| {
        var rest := ls[..o] + ls[c + 1..];
        assert forall j :: 0 <= j < o ==> rest[j] == ls[j];
        InsertedLicense(license, rest, o);
      }
    }
  }

  // ----- Directives -----

  lemma DirectiveLines(name: string)
    ensures StartsWith(IfLine(name), "#ifndef") && StartsWith(DefineLine(name), "#define")
    ensures StartsWith(EndLine(name), "#endif")
    ensures !StartsWith(IfLine(name), "#define") && !StartsWith(IfLine(name), "#endif")
    ensures !StartsWith(DefineLine(name), "#ifndef") && !StartsWith(DefineLine(name), "#endif")
    ensures !StartsWith(EndLine(name), "#ifndef") && !StartsWith(EndLine(name), "#define")
  {
    assert IfLine(name)[0] == '#' && IfLine(name)[1] == 'i';
    assert DefineLine(name)[0] == '#' && DefineLine(name)[1] == 'd';
    assert EndLine(name)[0] == '#' && EndLine(name)[1] == 'e';
  }

  /** A directive is neither blank nor a comment mark. */
  lemma DirectiveIsNoComment(line: string)
    requires Directive(line)
    ensures !Blank(line) && !StartsWith(line, "/*") && !StartsWith(line, "*/")
  {
    assert Stripped(line)[0] == '#';
  }

  lemma BlankIsNothing(text: string)
    ensures Blank("") && !StartsWith("", text)
  {}

  /** Guard lines for this name, found where the pass looks for them. */
  ghost predicate Guarded(name: string, ls: Lines, i: nat, e: nat) {
    && i + 1 < |ls| && e < |ls| && ls[i] == IfLine(name) && ls[i + 1] == DefineLine(name) && ls[e] == EndLine(name)
    && (forall j :: 0 <= j < i ==> !StartsWith(ls[j], "#ifndef"))
    && (forall j :: 0 <= j < i + 1 ==> !StartsWith(ls[j], "#define"))
    && (forall j :: e < j < |ls| ==> !StartsWith(ls[j], "#endif"))
  }

  lemma GuardedFixed(name: string, ls: Lines, i: nat, e: nat)
    requires Guarded(name, ls, i, e)
    ensures GuardPass(name, ls) == (ls, false)
  {
    DirectiveLines(name);
    FindIs(ls, 0, "#ifndef", i);
    FindIs(ls, 0, "#define", i + 1);
    FindLastIs(ls, |ls|, "#endif", e);
  }

  /** Inserting the guard lines behind p lines without guard directives. */
  lemma InsertedGuards(name: string, ls: Lines, p: nat)
    requires p <= |ls| && forall j :: 0 <= j < |ls| ==> !Directive(ls[j])
    ensures var r := ls[..p] + ["", IfLine(name), DefineLine(name)] + ls[p..] + [EndLine(name), ""];
      Guarded(name, r, p + 1, |r| - 2)
  {
    var r := ls[..p] + ["", IfLine(name), DefineLine(name)] + ls[p..] + [EndLine(name), ""];
    DirectiveLines(name);
    BlankIsNothing("#ifndef");
    BlankIsNothing("#define");
    BlankIsNothing("#endif");
    assert forall j :: 0 <= j < p ==> r[j] == ls[j];
    assert r[p] == "" && r[p + 1] == IfLine(name) && r[p + 2] == DefineLine(name);
    assert r[|r| - 2] == EndLine(name) && r[|r| - 1] == "";
  }

  lemma NoDirectives(ls: Lines)
    requires Find(ls, 0, "#ifndef", false) == |ls| && Find(ls, 0, "#define", false) == |ls|
    requires FindLast(ls, |ls|, "#endif") == |ls|
    ensures forall j :: 0 <= j < |ls| ==> !Directive(ls[j])
  {
    FindMeans(ls, 0, "#ifndef");
    FindMeans(ls, 0, "#define");
    FindLastMeans(ls, |ls|, "#endif");
  }

  /** Where the guard lines are when the pass updates them. */
  ghost predicate Found(ls: Lines, i: nat, e: nat) {
    && i == Find(ls, 0, "#ifndef", false) && i + 1 == Find(ls, 0, "#define", false) && e == FindLast(ls, |ls|, "#endif")
    && i + 1 < |ls| && e < |ls|
  }

  function Updated(name: string, ls: Lines, i: nat, e: nat): (r: Lines)
    requires i + 1 < |ls| && e < |ls|
    ensures |r| == |ls|
  {
    ls[i := IfLine(name)][i + 1 := DefineLine(name)][e := EndLine(name)]
  }

  lemma FoundDirectives(ls: Lines, i: nat, e: nat)
    requires Found(ls, i, e)
    ensures StartsWith(ls[i], "#ifndef") && StartsWith(ls[i + 1], "#define") && StartsWith(ls[e], "#endif")
    ensures e != i && e != i + 1
    ensures forall j :: 0 <= j < i ==> !StartsWith(ls[j], "#ifndef")
    ensures forall j :: 0 <= j < i + 1 ==> !StartsWith(ls[j], "#define")
    ensures forall j :: e < j < |ls| ==> !StartsWith(ls[j], "#endif")
  {
    FindMeans(ls, 0, "#ifndef");
    FindMeans(ls, 0, "#define");
    FindLastMeans(ls, |ls|, "#endif");
    assert Stripped(ls[i])[1] == 'i' && Stripped(ls[i + 1])[1] == 'd' && Stripped(ls[e])[1] == 'e';
  }

  lemma UpdatedGuards(name: string, ls: Lines, i: nat, e: nat)
    requires Found(ls, i, e)
    ensures Guarded(name, Updated(name, ls, i, e), i, e)
  {
    FoundDirectives(ls, i, e);
    DirectiveLines(name);
  }

  /** A second guard pass finds nothing to fix, whatever the file. */
  lemma GuardTwice(name: string, ls: Lines)
    ensures GuardPass(name, GuardPass(name, ls).0) == (GuardPass(name, ls).0, false)
  {
    var (r, fixed) := GuardPass(name, ls);
    if fixed {
      var i, e := Find(ls, 0, "#ifndef", false), FindLast(ls, |ls|, "#endif");
      if i == |ls| {
        NoDirectives(ls);
        var p := if Find(ls, 0, "/*", true) == |ls| then 0 else Find(ls, 0, "*/", false) + 1;
        InsertedGuards(name, ls, p);
        assert r == ls[..p] + ["", IfLine(name), DefineLine(name)] + ls[p..] + [EndLine(name), ""];
        GuardedFixed(name, r, p + 1, |r| - 2);
      } else {
        UpdatedGuards(name, ls, i, e);
        GuardedFixed(name, r, i, e);
      }
    }
  }

  // ----- The guard pass leaves the license alone -----

  lemma UpdateKeepsOthers(name: string, ls: Lines, i: nat, e: nat, j: nat)
    requires Found(ls, i, e) && j < |ls|
    ensures Updated(name, ls, i, e)[j] == ls[j] || (Directive(ls[j]) && Directive(Updated(name, ls, i, e)[j]))
  {
    FoundDirectives(ls, i, e);
    DirectiveLines(name);
  }

  /** The same first m lines keep the license. */
  lemma PrefixKeepsLicensed(license: Lines, ls: Lines, r: Lines, o: nat)
    requires Licensed(license, ls, o) && o + |license| <= |r| && r[..o + |license|] == ls[..o + |license|]
    ensures Licensed(license, r, o)
  {
    var m := o + |license|;
    assert r[o..m] == r[..m][o..] == ls[..m][o..] == ls[o..m];
    assert forall j :: 0 <= j < o ==> r[j] == r[..m][j] && ls[j] == ls[..m][j];
  }

  lemma UpdateKeepsLicensed(license: Lines, name: string, ls: Lines, o: nat, i: nat, e: nat)
    requires BlockComment(license) && Licensed(license, ls, o) && Found(ls, i, e)
    ensures Licensed(license, Updated(name, ls, i, e), o)
  {
    var r, m := Updated(name, ls, i, e), o + |license|;
    forall j | 0 <= j < m ensures r[j] == ls[j] {
      UpdateKeepsOthers(name, ls, i, e, j);
      if j >= o {
        assert ls[j] == ls[o..m][j - o] == license[j - o];
      } else if Directive(ls[j]) {
        DirectiveIsNoComment(ls[j]);
      }
    }
    assert r[..m] == ls[..m];
    PrefixKeepsLicensed(license, ls, r, o);
  }

  lemma GuardKeepsLicensed(license: Lines, name: string, ls: Lines, o: nat)
    requires BlockComment(license) && Licensed(license, ls, o)
    ensures Licensed(license, GuardPass(name, ls).0, o)
  {
    LicensedFixed(license, ls, o);
    var (r, fixed) := GuardPass(name, ls);
    if fixed {
      var i, e := Find(ls, 0, "#ifndef", false), FindLast(ls, |ls|, "#endif");
      if i == |ls| {
        var m := o + |license|;
        assert r == ls[..m] + (["", IfLine(name), DefineLine(name)] + ls[m..] + [EndLine(name), ""]);
        PrefixKeepsLicensed(license, ls, r, o);
      } else {
        UpdateKeepsLicensed(license, name, ls, o, i, e);
      }
    }
  }

  lemma GuardKeepsUnclosed(name: string, ls: Lines, o: nat)
    requires Unclosed(ls, o)
    ensures Unclosed(GuardPass(name, ls).0, o)
  {
    var (r, fixed) := GuardPass(name, ls);
    FirstTextIs(ls, 0, "/*", o);
    forall j | 0 <= j < |ls| ensures !StartsWith(ls[j], "*/") {}
    FindNone(ls, 0, "*/");
    if fixed {
      var i, e := Find(ls, 0, "#ifndef", false), FindLast(ls, |ls|, "#endif");
      forall j | 0 <= j < |ls|
        ensures Blank(ls[j]) ==> Blank(r[j])
        ensures StartsWith(ls[j], "/*") ==> StartsWith(r[j], "/*")
        ensures !StartsWith(r[j], "*/")
      {
        UpdateKeepsOthers(name, ls, i, e, j);
        if r[j] != ls[j] {
          DirectiveIsNoComment(ls[j]);
          DirectiveIsNoComment(r[j]);
        }
      }
    }
  }

  // ----- Empty lines at both ends -----

  /** What the last pass may add. */
  ghost predicate Pad(p: Lines) {
    p == [] || p == [""]
  }

  lemma PaddedLine(f: Lines, ls: Lines, g: Lines, j: nat)
    requires Pad(f) && Pad(g) && j < |f + ls + g|
    ensures (f + ls + g)[j] == if |f| <= j < |f| + |ls| then ls[j - |f|] else ""
  {}

  lemma FindPadded(f: Lines, ls: Lines, g: Lines, text: string)
    requires Pad(f) && Pad(g)
    ensures var k, p := Find(ls, 0, text, false), f + ls + g;
      Find(p, 0, text, false) == if k < |ls| then |f| + k else |p|
  {
    var k, p := Find(ls, 0, text, false), f + ls + g;
    FindMeans(ls, 0, text);
    BlankIsNothing(text);
    forall j | 0 <= j < (if k < |ls| then |f| + k else |p|) ensures !StartsWith(p[j], text) {
      PaddedLine(f, ls, g, j);
    }
    if k < |ls| {
      PaddedLine(f, ls, g, |f| + k);
      FindIs(p, 0, text, |f| + k);
    } else {
      FindNone(p, 0, text);
    }
  }

  lemma FindLastPadded(f: Lines, ls: Lines, g: Lines, text: string)
    requires Pad(f) && Pad(g)
    ensures var k, p := FindLast(ls, |ls|, text), f + ls + g;
      FindLast(p, |p|, text) == if k < |ls| then |f| + k else |p|
  {
    var k, p := FindLast(ls, |ls|, text), f + ls + g;
    FindLastMeans(ls, |ls|, text);
    BlankIsNothing(text);
    var from := if k < |ls| then |f| + k + 1 else 0;
    forall j | from <= j < |p| ensures !StartsWith(p[j], text) {
      PaddedLine(f, ls, g, j);
    }
    if k < |ls| {
      PaddedLine(f, ls, g, |f| + k);
      FindLastIs(p, |p|, text, |f| + k);
    } else {
      FindLastNone(p, |p|, text);
    }
  }

  lemma FirstTextPadded(f: Lines, ls: Lines, g: Lines, text: string)
    requires Pad(f) && Pad(g) && Find(ls, 0, text, true) < |ls|
    ensures Find(f + ls + g, 0, text, true) == |f| + Find(ls, 0, text, true)
  {
    var k, p := Find(ls, 0, text, true), f + ls + g;
    FirstTextMeans(ls, 0, text);
    BlankIsNothing(text);
    forall j | 0 <= j <= |f| + k ensures j == |f| + k || Blank(p[j]) {
      PaddedLine(f, ls, g, j);
    }
    PaddedLine(f, ls, g, |f| + k);
    FirstTextIs(p, 0, text, |f| + k);
  }

  /** Whether the guard pass fixes anything, decided by what its searches find in n lines:
      the directives at i, d and e, a comment opening at b and closing at c, and whether the
      three lines are right already. */
  predicate GuardFixes(n: nat, i: nat, d: nat, e: nat, b: nat, c: nat, right: bool) {
    && (i == n) == (d == n) && (i == n) == (e == n)
    && (if i == n then b == n || c < n else d == i + 1 && !right)
  }

  predicate LinesAt(ls: Lines, i: nat, x: string, d: nat, y: string, e: nat, z: string) {
    i < |ls| && d < |ls| && e < |ls| && ls[i] == x && ls[d] == y && ls[e] == z
  }

  predicate RightGuards(name: string, ls: Lines, i: nat, d: nat, e: nat) {
    LinesAt(ls, i, IfLine(name), d, DefineLine(name), e, EndLine(name))
  }

  lemma GuardDecides(name: string, ls: Lines)
    ensures var i, d := Find(ls, 0, "#ifndef", false), Find(ls, 0, "#define", false);
      var e := FindLast(ls, |ls|, "#endif");
      GuardPass(name, ls).1
      == GuardFixes(|ls|, i, d, e, Find(ls, 0, "/*", true), Find(ls, 0, "*/", false), RightGuards(name, ls, i, d, e))
    ensures !GuardPass(name, ls).1 ==> GuardPass(name, ls).0 == ls
  {
    var n, i, d := |ls|, Find(ls, 0, "#ifndef", false), Find(ls, 0, "#define", false);
    var e := FindLast(ls, n, "#endif");
    if (i == n) != (d == n) || (i == n) != (e == n) {
      assert !GuardPass(name, ls).1;
    } else if i == n {
      assert GuardPass(name, ls).1 <==> Find(ls, 0, "/*", true) == n || Find(ls, 0, "*/", false) < n;
    }
  }

  /** A position found in n lines, seen from the padded file of m lines. */
  function Shifted(k: nat, n: nat, off: nat, m: nat): nat {
    if k < n then off + k else m
  }

  lemma FixesShifted(n: nat, i: nat, d: nat, e: nat, b: nat, c: nat, right: bool, off: nat, m: nat, b': nat, right': bool)
    requires n + off <= m && i <= n && d <= n && e <= n && c <= n
    requires (b < n ==> b' < m) && (right ==> right') && !GuardFixes(n, i, d, e, b, c, right) && b <= n
    ensures !GuardFixes(m, Shifted(i, n, off, m), Shifted(d, n, off, m), Shifted(e, n, off, m), b',
                        Shifted(c, n, off, m), right')
  {}

  lemma LinesShifted(f: Lines, ls: Lines, g: Lines, i: nat, x: string, d: nat, y: string, e: nat, z: string)
    requires Pad(f) && Pad(g) && LinesAt(ls, i, x, d, y, e, z)
    ensures LinesAt(f + ls + g, |f| + i, x, |f| + d, y, |f| + e, z)
  {
    PaddedLine(f, ls, g, |f| + i);
    PaddedLine(f, ls, g, |f| + d);
    PaddedLine(f, ls, g, |f| + e);
  }

  /** Empty lines around a file that the guard pass leaves alone change nothing for it. */
  lemma GuardPadded(name: string, f: Lines, ls: Lines, g: Lines)
    requires Pad(f) && Pad(g) && !GuardPass(name, ls).1
    ensures GuardPass(name, f + ls + g) == (f + ls + g, false)
  {
    var p, n := f + ls + g, |ls|;
    GuardDecides(name, ls);
    PositionsPadded(f, ls, g);
    RightGuardsPadded(name, f, ls, g);
    FixesShifted(n, Find(ls, 0, "#ifndef", false), Find(ls, 0, "#define", false), FindLast(ls, n, "#endif"),
                 Find(ls, 0, "/*", true), Find(ls, 0, "*/", false), GuardsAreRight(name, ls),
                 |f|, |p|, Find(p, 0, "/*", true), GuardsAreRight(name, p));
    GuardDecides(name, p);
  }

  /** The guard lines that the pass finds are the expected ones. */
  ghost predicate GuardsAreRight(name: string, ls: Lines) {
    RightGuards(name, ls, Find(ls, 0, "#ifndef", false), Find(ls, 0, "#define", false), FindLast(ls, |ls|, "#endif"))
  }

  lemma PositionsPadded(f: Lines, ls: Lines, g: Lines)
    requires Pad(f) && Pad(g)
    ensures var p, n := f + ls + g, |ls|;
      && Find(p, 0, "#ifndef", false) == Shifted(Find(ls, 0, "#ifndef", false), n, |f|, |p|)
      && Find(p, 0, "#define", false) == Shifted(Find(ls, 0, "#define", false), n, |f|, |p|)
      && Find(p, 0, "*/", false) == Shifted(Find(ls, 0, "*/", false), n, |f|, |p|)
      && FindLast(p, |p|, "#endif") == Shifted(FindLast(ls, n, "#endif"), n, |f|, |p|)
      && (Find(ls, 0, "/*", true) < n ==> Find(p, 0, "/*", true) < |p|)
  {
    FindPadded(f, ls, g, "#ifndef");
    FindPadded(f, ls, g, "#define");
    FindPadded(f, ls, g, "*/");
    FindLastPadded(f, ls, g, "#endif");
    if Find(ls, 0, "/*", true) < |ls| {
      FirstTextPadded(f, ls, g, "/*");
    }
  }

  lemma RightGuardsPadded(name: string, f: Lines, ls: Lines, g: Lines)
    requires Pad(f) && Pad(g)
    ensures GuardsAreRight(name, ls) ==> GuardsAreRight(name, f + ls + g)
  {
    if GuardsAreRight(name, ls) {
      PositionsPadded(f, ls, g);
      LinesShifted(f, ls, g, Find(ls, 0, "#ifndef", false), IfLine(name), Find(ls, 0, "#define", false), DefineLine(name),
                   FindLast(ls, |ls|, "#endif"), EndLine(name));
    }
  }

  lemma LicensedPadded(license: Lines, f: Lines, ls: Lines, g: Lines, o: nat)
    requires Pad(f) && Pad(g) && Licensed(license, ls, o)
    ensures Licensed(license, f + ls + g, |f| + o)
  {
    var p := f + ls + g;
    BlankIsNothing("");
    forall j | 0 <= j < |f| + o ensures Blank(p[j]) {
      PaddedLine(f, ls, g, j);
    }
    forall k | 0 <= k < |license| ensures p[|f| + o + k] == license[k] {
      PaddedLine(f, ls, g, |f| + o + k);
      assert ls[o..o + |license|][k] == license[k];
    }
    assert p[|f| + o..|f| + o + |license|] == license;
  }

  lemma UnclosedPadded(f: Lines, ls: Lines, g: Lines, o: nat)
    requires Pad(f) && Pad(g) && Unclosed(ls, o)
    ensures Unclosed(f + ls + g, |f| + o)
  {
    var p := f + ls + g;
    BlankIsNothing("*/");
    forall j | 0 <= j < |p|
      ensures j < |f| + o ==> Blank(p[j])
      ensures j >= |f| + o ==> !StartsWith(p[j], "*/")
      ensures j == |f| + o ==> StartsWith(p[j], "/*")
    {
      PaddedLine(f, ls, g, j);
    }
  }

  // ----- The fixed point -----

  /** The license pass is settled on this file. */
  ghost predicate Settled(a: Action, ls: Lines) {
    a.license.None? || exists o :: Licensed(a.license.value, ls, o) || Unclosed(ls, o)
  }

  lemma SettledFixed(a: Action, ls: Lines)
    requires ValidAction(a) && Settled(a, ls)
    ensures License(a, ls) == (ls, false)
  {
    if a.license.Some? {
      var o :| Licensed(a.license.value, ls, o) || Unclosed(ls, o);
      if Licensed(a.license.value, ls, o) {
        LicensedFixed(a.license.value, ls, o);
      } else {
        UnclosedFixed(a.license.value, ls, o);
      }
    }
  }

  lemma LicenseSettles(a: Action, ls: Lines)
    requires ValidAction(a)
    ensures Settled(a, License(a, ls).0)
  {
    if a.license.Some? {
      var o := LicenseOutcome(a.license.value, ls);
    }
  }

  lemma GuardKeepsSettled(a: Action, ls: Lines)
    requires ValidAction(a) && Settled(a, ls)
    ensures Settled(a, Guard(a, ls).0)
  {
    if a.license.Some? && a.guard.Some? {
      var o :| Licensed(a.license.value, ls, o) || Unclosed(ls, o);
      if Licensed(a.license.value, ls, o) {
        GuardKeepsLicensed(a.license.value, a.guard.value, ls, o);
      } else {
        GuardKeepsUnclosed(a.guard.value, ls, o);
      }
    }
  }

  lemma PadKeepsSettled(a: Action, f: Lines, ls: Lines, g: Lines)
    requires Pad(f) && Pad(g) && Settled(a, ls)
    ensures Settled(a, f + ls + g)
  {
    if a.license.Some? {
      var o :| Licensed(a.license.value, ls, o) || Unclosed(ls, o);
      if Licensed(a.license.value, ls, o) {
        LicensedPadded(a.license.value, f, ls, g, o);
      } else {
        UnclosedPadded(f, ls, g, o);
      }
    }
  }

  lemma NewlineTwice(ls: Lines)
    ensures NewlinePass(NewlinePass(ls).0) == (NewlinePass(ls).0, false)
  {
    var r := NewlinePass(ls).0;
    if ls != [] {
      assert r[0] == "" && r[|r| - 1] == "";
      assert [] + r + [] == r;
    }
  }

  /** Polishing a polished file fixes nothing and changes nothing. */
  lemma PolishedTwice(a: Action, ls: Lines)
    requires ValidAction(a)
    ensures Polished(a, Polished(a, ls).0) == (Polished(a, ls).0, 0)
  {
    var l := License(a, ls).0;
    var g := Guard(a, l).0;
    var n := Newline(a, g).0;
    LicenseSettles(a, ls);
    GuardKeepsSettled(a, l);
    if a.guard.Some? {
      GuardTwice(a.guard.value, l);
    }
    var f, b := if a.cxx then FrontPad(g) else [], if a.cxx then BackPad(g) else [];
    assert n == f + g + b;
    PadKeepsSettled(a, f, g, b);
    SettledFixed(a, n);
    if a.guard.Some? {
      GuardPadded(a.guard.value, f, g, b);
    }
    NewlineTwice(g);
    PolishedSteps(a, ls);
    SettledPolish(a, n);
  }

  /** A file that no pass fixes is left as it is. */
  lemma SettledPolish(a: Action, ls: Lines)
    requires a.license.Some? ==> a.license.value != []
    requires License(a, ls) == (ls, false) && Guard(a, ls) == (ls, false) && Newline(a, ls) == (ls, false)
    ensures Polished(a, ls) == (ls, 0)
  {
    PolishedSteps(a, ls);
  }

  /** A license as the repository has it. */
  const SampleLicense: Lines := ["/*", " * Copyright", " */"]

  lemma SampleLicenseIsValid()
    ensures ValidAction(Action(Some(SampleLicense), None, true))
  {
    var first, middle, last := SampleLicense[0], SampleLicense[1], SampleLicense[2];
    assert first[0] == '/' && Stripped(first) == first;
    assert middle[1..][0] == '*' && Stripped(middle[1..]) == middle[1..];
    assert last[1..] == "*/" && Stripped(last[1..]) == "*/" && TrimLeft(last[1..]) == "*/" && TrimRight("*/") == "*/";
    assert TrimLeft(last) == "*/";
    forall k | 0 <= k < |SampleLicense| ensures !Directive(SampleLicense[k]) {
      assert Stripped(SampleLicense[k])[0] != '#';
    }
  }

  // ----- What a pass reports -----

  /** For every block comment license, a pass reports a fix exactly if it changed the lines. */
  lemma PassReports(p: Pass, a: Action, ls: Lines)
    requires ValidAction(a)
    ensures Applied(p, a, ls).1 <==> Applied(p, a, ls).0 != ls
  {
    match p
    case LicenseText =>
      if a.license.Some? && License(a, ls).0 == ls {
        LicenseSettles(a, ls);
        SettledFixed(a, ls);
      }
      if a.license.Some? && !License(a, ls).1 {
        assert License(a, ls).0 == ls;
      }
    case IncludeGuard =>
      if a.guard.Some? && Guard(a, ls).0 == ls {
        GuardTwice(a.guard.value, ls);
      }
      if a.guard.Some? {
        GuardDecides(a.guard.value, ls);
      }
    case NewlineBeginEnd => NewlinePassWrites(ls);
  }

  /** Only blanks are skipped in front of a text, and all of them. */
  lemma {:induction false} StrippedMeans(line: string) returns (front: string)
    ensures line == front + Stripped(line) && (forall k :: 0 <= k < |front| ==> front[k] == ' ')
    ensures Stripped(line) != "" ==> Stripped(line)[0] != ' '
  {
    front := "";
    if line != "" && line[0] == ' ' {
      var rest := StrippedMeans(line[1..]);
      front := " " + rest;
    }
  }

  // ----- Trimming -----

  /** Blank, tab, line feed, vertical tab, form feed and carriage return. */
  predicate White(s: string) {
    forall k :: 0 <= k < |s| ==> s[k] as int in {32, 9, 10, 11, 12, 13}
  }

  /** Trimming removes all white space at both ends and nothing else. */
  lemma TrimMeans(s: string) returns (front: string, back: string)
    ensures s == front + Trim(s) + back && White(front) && White(back)
    ensures Trim(s) != "" ==> !White([Trim(s)[0]]) && !White([Trim(s)[|Trim(s)| - 1]])
  {
    front := TrimLeftMeans(s);
    back := TrimRightMeans(TrimLeft(s));
  }

  lemma {:induction false} TrimLeftMeans(s: string) returns (front: string)
    ensures s == front + TrimLeft(s) && White(front)
    ensures TrimLeft(s) != "" ==> !White([TrimLeft(s)[0]])
  {
    if s != "" && IsSpace(s[0]) {
      var rest := TrimLeftMeans(s[1..]);
      front := [s[0]] + rest;
    } else {
      front := "";
      assert s != "" ==> [s[0]][0] == s[0];
    }
  }

  lemma {:induction false} TrimRightMeans(s: string) returns (back: string)
    ensures s == TrimRight(s) + back && White(back)
    ensures TrimRight(s) != "" ==> TrimRight(s)[0] == s[0] && !White([TrimRight(s)[|TrimRight(s)| - 1]])
  {
    if s != "" && IsSpace(s[|s| - 1]) {
      var rest := TrimRightMeans(s[..|s| - 1]);
      back := rest + [s[|s| - 1]];
    } else {
      back := "";
      assert s != "" ==> [s[|s| - 1]][0] == s[|s| - 1];
    }
  }

  // ----- What the passes write -----

  /** The guard pass, said with the text it writes. Where it fixes a file without guards, the file
      is wrapped, behind its leading comment if it has one; where it fixes guards, the three lines
      that were found are replaced and no other. Either way the macro that the first guard line
      asks for is the one that the next line defines. */
  lemma GuardPassWrites(name: string, ls: Lines)
    requires GuardPass(name, ls).1
    ensures var out := GuardPass(name, ls).0;
      var i, d, e := Find(ls, 0, "#ifndef", false), Find(ls, 0, "#define", false), FindLast(ls, |ls|, "#endif");
      if i == |ls| then
        var p := if Find(ls, 0, "/*", true) == |ls| then 0 else Find(ls, 0, "*/", false) + 1;
        && p <= |ls|
        && out == ls[..p] + ["", "#ifndef " + name, "#define " + name] + ls[p..] + ["#endif // " + name, ""]
      else
        && d == i + 1 < |ls| && e < |ls| && |out| == |ls| && e != i && e != d
        && out[i] == "#ifndef " + name && out[i + 1] == "#define " + name && out[e] == "#endif // " + name
        && forall k :: 0 <= k < |ls| && k != i && k != d && k != e ==> out[k] == ls[k]
  {
    var i, e := Find(ls, 0, "#ifndef", false), FindLast(ls, |ls|, "#endif");
    if i < |ls| {
      FoundDirectives(ls, i, e);
    }
  }

  /** After a fix the guards are found where they were written, with the text they should have. */
  lemma GuardPassGuards(name: string, ls: Lines)
    requires GuardPass(name, ls).1
    ensures var out := GuardPass(name, ls).0;
      var i, e := Find(out, 0, "#ifndef", false), FindLast(out, |out|, "#endif");
      && i + 1 < |out| && i + 1 == Find(out, 0, "#define", false) && e < |out|
      && out[i] == "#ifndef " + name && out[i + 1] == "#define " + name && out[e] == "#endif // " + name
  {
    var out := GuardPass(name, ls).0;
    var i, e := Find(ls, 0, "#ifndef", false), FindLast(ls, |ls|, "#endif");
    if i == |ls| {
      NoDirectives(ls);
      var p := if Find(ls, 0, "/*", true) == |ls| then 0 else Find(ls, 0, "*/", false) + 1;
      InsertedGuards(name, ls, p);
      assert out == ls[..p] + ["", IfLine(name), DefineLine(name)] + ls[p..] + [EndLine(name), ""];
      GuardedFound(name, out, p + 1, |out| - 2);
    } else {
      UpdatedGuards(name, ls, i, e);
      GuardedFound(name, out, i, e);
    }
  }

  lemma GuardedFound(name: string, ls: Lines, i: nat, e: nat)
    requires Guarded(name, ls, i, e)
    ensures Find(ls, 0, "#ifndef", false) == i && Find(ls, 0, "#define", false) == i + 1 && FindLast(ls, |ls|, "#endif") == e
  {
    DirectiveLines(name);
    FindIs(ls, 0, "#ifndef", i);
    FindIs(ls, 0, "#define", i + 1);
    FindLastIs(ls, |ls|, "#endif", e);
  }

  /** After the newline pass a C++ file that is not empty begins and ends with an empty line; the
      pass adds at most these two lines, and tells whether it did. */
  lemma NewlinePassWrites(ls: Lines)
    ensures var (out, fixed) := NewlinePass(ls);
      && (ls == [] ==> out == [] && !fixed)
      && (ls != [] ==> out[0] == "" && out[|out| - 1] == "")
      && (fixed <==> ls != [] && (ls[0] != "" || ls[|ls| - 1] != ""))
      && out == (if ls != [] && ls[0] != "" then [""] else []) + ls + (if ls != [] && ls[|ls| - 1] != "" then [""] else [])
  {}
}
