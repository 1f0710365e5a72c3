/** The three source polishing passes: license text, include guards, and empty lines at both
    ends. Applied to their own output they find nothing left to fix. */
module Polish {
  import opened Sequences

  type Lines = seq<string>

  // ----- Looking at lines -----

  /** The line without its leading blanks. */
  function Stripped(line: string): string {
    if line != "" && line[0] == ' ' then Stripped(line[1..]) else line
  }

  predicate Blank(line: string) {
    Stripped(line) == ""
  }

  /** The first text on the line is `text`. */
  predicate StartsWith(line: string, text: string) {
    Stripped(line) != "" && text <= Stripped(line)
  }

  /** find_first_in_lines from index i on; the length of the file stands for its end. With
      `stop` only the first line that is not blank is looked at. */
  function Find(ls: Lines, i: nat, text: string, stop: bool): (k: nat)
    requires i <= |ls|
    ensures i <= k <= |ls|
    decreases |ls| - i
  {
    if i == |ls| then i
    else if Blank(ls[i]) then Find(ls, i + 1, text, stop)
    else if StartsWith(ls[i], text) then i
    else if stop then |ls|
    else Find(ls, i + 1, text, stop)
  }

  /** The same search backwards over the first n lines. */
  function FindLast(ls: Lines, n: nat, text: string): (k: nat)
    requires n <= |ls|
    ensures k < n || k == |ls|
    decreases n
  {
    if n == 0 then |ls|
    else if StartsWith(ls[n - 1], text) then n - 1
    else FindLast(ls, n - 1, text)
  }

  /** The forward search as the loop it is. */
  method FindFirstInLines(ls: Lines, begin: nat, text: string, stop: bool) returns (k: nat)
    requires begin <= |ls|
    ensures k == Find(ls, begin, text, stop)
  {
    k := begin;
    while k != |ls|
      invariant begin <= k <= |ls| && Find(ls, begin, text, stop) == Find(ls, k, text, stop)
      decreases |ls| - k
    {
      if !Blank(ls[k]) {
        if StartsWith(ls[k], text) {
          return;
        }
        if stop {
          return |ls|;
        }
      }
      k := k + 1;
    }
  }

  /** And over reverse iterators. */
  method FindLastInLines(ls: Lines, text: string) returns (k: nat)
    ensures k == FindLast(ls, |ls|, text)
  {
    var n: nat := |ls|;
    while n != 0
      invariant n <= |ls| && FindLast(ls, |ls|, text) == FindLast(ls, n, text)
    {
      if StartsWith(ls[n - 1], text) {
        return n - 1;
      }
      n := n - 1;
    }
    k := |ls|;
  }

  // ----- The passes as functions -----

  predicate IsSpace(c: char) {
    c == ' ' || '\t' <= c <= '\r'
  }

  function TrimLeft(s: string): string {
    if s != "" && IsSpace(s[0]) then TrimLeft(s[1..]) else s
  }

  function TrimRight(s: string): string {
    if s != "" && IsSpace(s[|s| - 1]) then TrimRight(s[..|s| - 1]) else s
  }

  function Trim(s: string): string {
    TrimRight(TrimLeft(s))
  }

  /** What the first line of a license is recognized by: its first two characters. */
  function Entry(license: Lines): string
    requires license != []
  {
    var entry := Trim(license[0]);
    if |license[0]| > 2 && |entry| > 2 then entry[..2] else entry
  }

  function Leave(license: Lines): string
    requires license != []
  {
    Trim(license[|license| - 1])
  }

  /** insert_license at index i, followed by an empty line unless one is there or the file ends. */
  function InsertLicense(license: Lines, ls: Lines, i: nat): Lines
    requires i <= |ls|
  {
    ls[..i] + license + (if i < |ls| && ls[i] != "" then [""] else []) + ls[i..]
  }

  function LicensePass(license: Lines, ls: Lines): (Lines, bool)
    requires license != []
  {
    var opening := Find(ls, 0, Entry(license), true);
    if opening == |ls| then (InsertLicense(license, ls, 0), true)
    else
      var closing := Find(ls, opening, Leave(license), false);
      if closing == |ls| then (ls, false)
      else if ls[opening..closing + 1] != license then
        (InsertLicense(license, ls[..opening] + ls[closing + 1..], opening), true)
      else (ls, false)
  }

  function IfLine(name: string): string { "#ifndef " + name }
  function DefineLine(name: string): string { "#define " + name }
  function EndLine(name: string): string { "#endif // " + name }

  function GuardPass(name: string, ls: Lines): (Lines, bool) {
    var n := |ls|;
    var i := Find(ls, 0, "#ifndef", false);
    var d := Find(ls, 0, "#define", false);
    var e := FindLast(ls, n, "#endif");
    if (i == n) != (d == n) || (i == n) != (e == n) then (ls, false)
    else if i != n && d != i + 1 then (ls, false)
    else if i == n then
      var guard := ["", IfLine(name), DefineLine(name)];
      var tail := [EndLine(name), ""];
      if Find(ls, 0, "/*", true) == n then (guard + ls + tail, true)
      else
        var c := Find(ls, 0, "*/", false);
        if c == n then (ls, false) else (ls[..c + 1] + guard + ls[c + 1..] + tail, true)
    else if ls[i] == IfLine(name) && ls[d] == DefineLine(name) && ls[e] == EndLine(name) then (ls, false)
    else (ls[i := IfLine(name)][d := DefineLine(name)][e := EndLine(name)], true)
  }

  /** The empty lines missing in front and at the end. */
  function FrontPad(ls: Lines): Lines { if ls != [] && ls[0] != "" then [""] else [] }
  function BackPad(ls: Lines): Lines { if ls != [] && ls[|ls| - 1] != "" then [""] else [] }

  function NewlinePass(ls: Lines): (Lines, bool) {
    (FrontPad(ls) + ls + BackPad(ls), FrontPad(ls) != [] || BackPad(ls) != [])
  }

  /** What a file's name and the command line decide: the license for its kind, the guard name
      if it is a header that wants guards, and whether it is a C++ file. */
  datatype Action = Action(license: Option<Lines>, guard: Option<string>, cxx: bool)

  ghost predicate ValidAction(a: Action) {
    a.license.Some? ==> BlockComment(a.license.value)
  }

  function License(a: Action, ls: Lines): (Lines, bool)
    requires a.license.Some? ==> a.license.value != []
  {
    if a.license.Some? then LicensePass(a.license.value, ls) else (ls, false)
  }

  function Guard(a: Action, ls: Lines): (Lines, bool) {
    if a.guard.Some? then GuardPass(a.guard.value, ls) else (ls, false)
  }

  function Newline(a: Action, ls: Lines): (Lines, bool) {
    if a.cxx then NewlinePass(ls) else (ls, false)
  }

  /** The passes in the order of init_passes. */
  datatype Pass = LicenseText | IncludeGuard | NewlineBeginEnd

  const Passes: seq<Pass> := [LicenseText, IncludeGuard, NewlineBeginEnd]

  function Applied(p: Pass, a: Action, ls: Lines): (Lines, bool)
    requires a.license.Some? ==> a.license.value != []
  {
    match p
    case LicenseText => License(a, ls)
    case IncludeGuard => Guard(a, ls)
    case NewlineBeginEnd => Newline(a, ls)
  }

  /** The new lines after some passes, and how many of them fixed something. */
  function AppliedAll(ps: seq<Pass>, a: Action, ls: Lines): (Lines, nat)
    requires a.license.Some? ==> a.license.value != []
  {
    if ps == [] then (ls, 0)
    else
      var (l, fixed) := Applied(ps[0], a, ls);
      var (r, fixes) := AppliedAll(ps[1..], a, l);
      (r, fixes + if fixed then 1 else 0)
  }

  /** apply_passes: the new lines and the number of passes that fixed something. */
  function Polished(a: Action, ls: Lines): (Lines, nat)
    requires a.license.Some? ==> a.license.value != []
  {
    AppliedAll(Passes, a, ls)
  }

  /** The three steps with the lines in between. */
  lemma PolishedSteps(a: Action, l0: Lines)
    requires a.license.Some? ==> a.license.value != []
    ensures var (l1, f1) := License(a, l0);
      var (l2, f2) := Guard(a, l1);
      var (l3, f3) := Newline(a, l2);
      Polished(a, l0) == (l3, (if f1 then 1 else 0) + (if f2 then 1 else 0) + (if f3 then 1 else 0))
  {
    var l1 := License(a, l0).0;
    var l2 := Guard(a, l1).0;
    AppliedCons(LicenseText, [IncludeGuard, NewlineBeginEnd], a, l0);
    AppliedCons(IncludeGuard, [NewlineBeginEnd], a, l1);
    AppliedCons(NewlineBeginEnd, [], a, l2);
    assert Passes == [LicenseText] + [IncludeGuard, NewlineBeginEnd];
    assert [IncludeGuard] + [NewlineBeginEnd] == [IncludeGuard, NewlineBeginEnd];
    assert [NewlineBeginEnd] + [] == [NewlineBeginEnd];
  }

  lemma AppliedCons(p: Pass, ps: seq<Pass>, a: Action, ls: Lines)
    requires a.license.Some? ==> a.license.value != []
    ensures var (l, fixed) := Applied(p, a, ls);
      AppliedAll([p] + ps, a, ls) == (AppliedAll(ps, a, l).0, AppliedAll(ps, a, l).1 + if fixed then 1 else 0)
  {
    assert ([p] + ps)[1..] == ps;
  }

  // ----- The passes as they run -----

  /** A file under polish; the passes edit its lines in place. */
  class Document {
    var lines: Lines

    constructor (lines: Lines)
      ensures this.lines == lines
    {
      this.lines := lines;
    }

    method InsertLicenseAt(license: Lines, i: nat)
      requires i <= |lines|
      modifies this
      ensures lines == InsertLicense(license, old(lines), i)
    {
      ghost var before := lines;
      lines := lines[..i] + license + lines[i..];
      var itr := i + |license|;
      if itr != |lines| && lines[itr] != "" {
        assert lines[itr] == before[i];
        lines := lines[..itr] + [""] + lines[itr..];
      }
    }

    /** license_text_pass */
    method ApplyLicense(a: Action) returns (fixed: bool)
      requires a.license.Some? ==> a.license.value != []
      modifies this
      ensures (lines, fixed) == License(a, old(lines))
    {
      if a.license.None? {
        return false;
      }
      var license := a.license.value;
      var opening := FindFirstInLines(lines, 0, Entry(license), true);
      if opening == |lines| {
        InsertLicenseAt(license, 0);
        return true;
      }
      var closing := FindFirstInLines(lines, opening, Leave(license), false);
      if closing == |lines| {
        return false;
      }
      if lines[opening..closing + 1] != license {
        lines := lines[..opening] + lines[closing + 1..];
        InsertLicenseAt(license, opening);
        return true;
      }
      return false;
    }

    /** include_guard_pass */
    method ApplyGuard(a: Action) returns (fixed: bool)
      modifies this
      ensures (lines, fixed) == Guard(a, old(lines))
    {
      if a.guard.None? {
        return false;
      }
      var name, n := a.guard.value, |lines|;
      var ifLoc := FindFirstInLines(lines, 0, "#ifndef", false);
      var defLoc := FindFirstInLines(lines, 0, "#define", false);
      var endLoc := FindLastInLines(lines, "#endif");
      if (ifLoc == n) != (defLoc == n) || (ifLoc == n) != (endLoc == n) {
        return false;
      }
      if ifLoc != n && defLoc != ifLoc + 1 {
        return false;
      }
      if ifLoc == n {
        fixed := InsertGuard(name);
      } else if lines[ifLoc] == IfLine(name) && lines[defLoc] == DefineLine(name) && lines[endLoc] == EndLine(name) {
        fixed := false;
      } else {
        lines := lines[ifLoc := IfLine(name)];
        lines := lines[defLoc := DefineLine(name)];
        lines := lines[endLoc := EndLine(name)];
        fixed := true;
      }
    }

    /** Freshly inserted guards go behind a leading comment, or in front. */
    method InsertGuard(name: string) returns (fixed: bool)
      requires Find(lines, 0, "#ifndef", false) == |lines| && Find(lines, 0, "#define", false) == |lines|
      requires FindLast(lines, |lines|, "#endif") == |lines|
      modifies this
      ensures (lines, fixed) == GuardPass(name, old(lines))
    {
      var guard := ["", IfLine(name), DefineLine(name)];
      var opening := FindFirstInLines(lines, 0, "/*", true);
      if opening == |lines| {
        lines := guard + lines;
      } else {
        var closing := FindFirstInLines(lines, 0, "*/", false);
        if closing == |lines| {
          return false;
        }
        lines := lines[..closing + 1] + guard + lines[closing + 1..];
      }
      lines := lines + [EndLine(name), ""];
      fixed := true;
    }

    /** newline_begin_end_pass */
    method ApplyNewline(a: Action) returns (fixed: bool)
      modifies this
      ensures (lines, fixed) == Newline(a, old(lines))
    {
      fixed := false;
      if lines == [] || !a.cxx {
        assert lines == [] ==> FrontPad(lines) + lines + BackPad(lines) == lines;
        return;
      }
      ghost var before := lines;
      if lines[0] != "" {
        lines := [""] + lines;
        fixed := true;
      }
      assert lines == FrontPad(before) + before && lines[|lines| - 1] == before[|before| - 1];
      if lines[|lines| - 1] != "" {
        lines := lines + [""];
        fixed := true;
      }
      assert lines == FrontPad(before) + before + BackPad(before);
    }

    method ApplyPass(p: Pass, a: Action) returns (fixed: bool)
      requires a.license.Some? ==> a.license.value != []
      modifies this
      ensures (lines, fixed) == Applied(p, a, old(lines))
    {
      match p
      case LicenseText => fixed := ApplyLicense(a);
      case IncludeGuard => fixed := ApplyGuard(a);
      case NewlineBeginEnd => fixed := ApplyNewline(a);
    }

    /** apply_passes */
    method Apply(a: Action) returns (fixes: nat)
      requires a.license.Some? ==> a.license.value != []
      modifies this
      ensures (lines, fixes) == Polished(a, old(lines))
    {
      fixes := 0;
      for k := 0 to |Passes|
        invariant Polished(a, old(lines)) == (AppliedAll(Passes[k..], a, lines).0, fixes + AppliedAll(Passes[k..], a, lines).1)
      {
        AppliedCons(Passes[k], Passes[k + 1..], a, lines);
        assert Passes[k..] == [Passes[k]] + Passes[k + 1..];
        var fixed := ApplyPass(Passes[k], a);
        if fixed { fixes := fixes + 1; }
      }
    }
  }

  // ----- Well-formed licenses -----

  predicate Directive(line: string) {
    StartsWith(line, "#ifndef") || StartsWith(line, "#define") || StartsWith(line, "#endif")
  }

  /** A block comment: opens with the comment mark, only its last line starts with the closing
      mark, and no line is a guard directive. */
  ghost predicate BlockComment(license: Lines) {
    && license != [] && "/*" <= license[0]
    && Leave(license) == "*/" && StartsWith(license[|license| - 1], "*/")
    && (forall k :: 0 <= k < |license| - 1 ==> !StartsWith(license[k], "*/"))
    && (forall k :: 0 <= k < |license| ==> !Directive(license[k]))
  }

  // ----- Searches -----

  lemma {:induction false} FindIs(ls: Lines, i: nat, text: string, k: nat)
    requires i <= k < |ls| && StartsWith(ls[k], text)
    requires forall j :: i <= j < k ==> !StartsWith(ls[j], text)
    ensures Find(ls, i, text, false) == k
    decreases k - i
  {
    if i < k {
      FindIs(ls, i + 1, text, k);
    }
  }

  lemma {:induction false} FindMeans(ls: Lines, i: nat, text: string)
    requires i <= |ls|
    ensures var k := Find(ls, i, text, false);
      && (k < |ls| ==> StartsWith(ls[k], text))
      && (forall j :: i <= j < k ==> !StartsWith(ls[j], text))
    decreases |ls| - i
  {
    if i < |ls| {
      FindMeans(ls, i + 1, text);
    }
  }

  lemma {:induction false} FindNone(ls: Lines, i: nat, text: string)
    requires i <= |ls| && forall j :: i <= j < |ls| ==> !StartsWith(ls[j], text)
    ensures Find(ls, i, text, false) == |ls|
    decreases |ls| - i
  {
    if i < |ls| {
      FindNone(ls, i + 1, text);
    }
  }

  lemma {:induction false} FirstTextIs(ls: Lines, i: nat, text: string, k: nat)
    requires i <= k < |ls| && StartsWith(ls[k], text)
    requires forall j :: i <= j < k ==> Blank(ls[j])
    ensures Find(ls, i, text, true) == k
    decreases k - i
  {
    if i < k {
      FirstTextIs(ls, i + 1, text, k);
    }
  }

  lemma {:induction false} FirstTextMeans(ls: Lines, i: nat, text: string)
    requires i <= |ls|
    ensures var k := Find(ls, i, text, true);
      k < |ls| ==> StartsWith(ls[k], text) && forall j :: i <= j < k ==> Blank(ls[j])
    decreases |ls| - i
  {
    if i < |ls| {
      FirstTextMeans(ls, i + 1, text);
    }
  }

  lemma {:induction false} FindLastIs(ls: Lines, n: nat, text: string, k: nat)
    requires k < n <= |ls| && StartsWith(ls[k], text)
    requires forall j :: k < j < n ==> !StartsWith(ls[j], text)
    ensures FindLast(ls, n, text) == k
  {
    if k < n - 1 {
      FindLastIs(ls, n - 1, text, k);
    }
  }

  lemma {:induction false} FindLastMeans(ls: Lines, n: nat, text: string)
    requires n <= |ls|
    ensures var k := FindLast(ls, n, text);
      if k < |ls| then k < n && StartsWith(ls[k], text) && forall j :: k < j < n ==> !StartsWith(ls[j], text)
      else forall j :: 0 <= j < n ==> !StartsWith(ls[j], text)
  {
    if n > 0 {
      FindLastMeans(ls, n - 1, text);
    }
  }

  lemma {:induction false} FindLastNone(ls: Lines, n: nat, text: string)
    requires n <= |ls| && forall j :: 0 <= j < n ==> !StartsWith(ls[j], text)
    ensures FindLast(ls, n, text) == |ls|
  {
    if n > 0 {
      FindLastNone(ls, n - 1, text);
    }
  }
}
