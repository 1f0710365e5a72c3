/** No line is lost: what the polish passes keep of a file, line by line. */
module PolishSurvival {
  import opened Sequences
  import opened Polish
  import opened PolishLaws

  /** The lines of w are still there, unchanged and in order, among the lines of out. */
  predicate Survive(w: Lines, out: Lines) {
    if w == [] then true
    else out != [] && ((w[0] == out[0] && Survive(w[1..], out[1..])) || Survive(w, out[1..]))
  }

  lemma {:induction false} SurviveSelf(w: Lines)
    ensures Survive(w, w)
  {
    if w != [] {
      SurviveSelf(w[1..]);
    }
  }

  lemma {:induction false} SurviveInsert(w: Lines, a: Lines, x: Lines, b: Lines)
    requires Survive(w, a + b)
    ensures Survive(w, a + x + b)
    decreases |a|, |x|
  {
    if w != [] {
      if a != [] {
        assert (a + b)[1..] == a[1..] + b && (a + x + b)[1..] == a[1..] + x + b;
        if w[0] == a[0] && Survive(w[1..], a[1..] + b) {
          SurviveInsert(w[1..], a[1..], x, b);
        } else {
          SurviveInsert(w, a[1..], x, b);
        }
      } else if x != [] {
        assert (a + x + b)[1..] == a + x[1..] + b;
        SurviveInsert(w, a, x[1..], b);
      } else {
        assert a + x + b == a + b;
      }
    }
  }

  lemma Inserted(w: Lines, ls: Lines, a: Lines, x: Lines, b: Lines, out: Lines)
    requires Survive(w, ls) && ls == a + b && out == a + x + b
    ensures Survive(w, out)
  {
    SurviveInsert(w, a, x, b);
  }

  lemma InsertKeeps(ls: Lines, a: Lines, x: Lines, b: Lines, out: Lines)
    requires ls == a + b && out == a + x + b
    ensures Survive(ls, out)
  {
    SurviveSelf(ls);
    SurviveInsert(ls, a, x, b);
  }

  lemma {:induction false} SurviveThrough(v: Lines, w: Lines, out: Lines)
    requires Survive(v, w) && Survive(w, out)
    ensures Survive(v, out)
    decreases |w|, |out|
  {
    if v != [] {
      if w[0] == out[0] && Survive(w[1..], out[1..]) {
        if v[0] == w[0] && Survive(v[1..], w[1..]) {
          SurviveThrough(v[1..], w[1..], out[1..]);
        } else {
          SurviveThrough(v, w[1..], out[1..]);
        }
      } else {
        SurviveThrough(v, w, out[1..]);
      }
    }
  }

  // ----- Files without their guard lines -----

  /** Without the first line that starts with the text. */
  function DropFirst(w: Lines, text: string): Lines {
    if w == [] then [] else if StartsWith(w[0], text) then w[1..] else [w[0]] + DropFirst(w[1..], text)
  }

  predicate Occurs(w: Lines, text: string) {
    exists k :: 0 <= k < |w| && StartsWith(w[k], text)
  }

  /** Without the last line that starts with the text. */
  function DropLast(w: Lines, text: string): Lines {
    if w == [] then []
    else if StartsWith(w[0], text) && !Occurs(w[1..], text) then w[1..]
    else [w[0]] + DropLast(w[1..], text)
  }

  lemma {:induction false} DropFirstSurvives(w: Lines, text: string)
    ensures Survive(DropFirst(w, text), w)
  {
    if w != [] {
      DropFirstSurvives(w[1..], text);
      SurviveSelf(w[1..]);
    }
  }

  lemma {:induction false} DropLastSurvives(w: Lines, text: string)
    ensures Survive(DropLast(w, text), w)
  {
    if w != [] {
      DropLastSurvives(w[1..], text);
      SurviveSelf(w[1..]);
    }
  }

  /** Dropping the first such line on both sides keeps survival, whichever line it is. */
  lemma {:induction false} DropFirstMonotone(w: Lines, out: Lines, text: string)
    requires Survive(w, out)
    ensures Survive(DropFirst(w, text), DropFirst(out, text))
    decreases |out|
  {
    if w != [] {
      if w[0] == out[0] && Survive(w[1..], out[1..]) {
        DropFirstMonotone(w[1..], out[1..], text);
      } else if StartsWith(out[0], text) {
        DropFirstSurvives(w, text);
        SurviveThrough(DropFirst(w, text), w, out[1..]);
      } else {
        DropFirstMonotone(w, out[1..], text);
      }
    }
  }

  lemma {:induction false} SurviveOccurs(w: Lines, out: Lines, text: string)
    requires Survive(w, out) && Occurs(w, text)
    ensures Occurs(out, text)
    decreases |out|
  {
    var k :| 0 <= k < |w| && StartsWith(w[k], text);
    if w[0] == out[0] && Survive(w[1..], out[1..]) {
      if k > 0 {
        assert w[1..][k - 1] == w[k];
        SurviveOccurs(w[1..], out[1..], text);
        OccursBehind(out, text);
      }
    } else {
      SurviveOccurs(w, out[1..], text);
      OccursBehind(out, text);
    }
  }

  lemma OccursBehind(w: Lines, text: string)
    requires w != [] && Occurs(w[1..], text)
    ensures Occurs(w, text)
  {
    var k :| 0 <= k < |w[1..]| && StartsWith(w[1..][k], text);
    assert w[k + 1] == w[1..][k];
  }

  lemma {:induction false} DropLastNone(w: Lines, text: string)
    requires !Occurs(w, text)
    ensures DropLast(w, text) == w
  {
    if w != [] {
      if Occurs(w[1..], text) {
        OccursBehind(w, text);
      }
      assert !StartsWith(w[0], text);
      DropLastNone(w[1..], text);
    }
  }

  /** The same for the last such line. */
  lemma {:induction false} DropLastMonotone(w: Lines, out: Lines, text: string)
    requires Survive(w, out)
    ensures Survive(DropLast(w, text), DropLast(out, text))
    decreases |out|
  {
    if w != [] {
      if w[0] == out[0] && Survive(w[1..], out[1..]) {
        DropLastMonotone(w[1..], out[1..], text);
        if Occurs(w[1..], text) {
          SurviveOccurs(w[1..], out[1..], text);
        } else {
          DropLastNone(w[1..], text);
        }
      } else {
        DropLastMonotone(w, out[1..], text);
        if !Occurs(out[1..], text) {
          if Occurs(w, text) {
            SurviveOccurs(w, out[1..], text);
          }
          DropLastNone(w, text);
          DropLastNone(out[1..], text);
        }
      }
    }
  }

  // ----- The passes -----

  /** The file without the comment block the license pass takes for the license. */
  function Outside(a: Action, ls: Lines): Lines
    requires a.license.Some? ==> a.license.value != []
  {
    if a.license.None? then ls else OutsideOf(a.license.value, ls)
  }

  function OutsideOf(license: Lines, ls: Lines): Lines
    requires license != []
  {
    var o := Find(ls, 0, Entry(license), true);
    if o == |ls| then ls
    else
      var c := Find(ls, o, Leave(license), false);
      if c == |ls| then ls else ls[..o] + ls[c + 1..]
  }

  lemma InsertKeepsLines(license: Lines, w: Lines, i: nat)
    requires i <= |w|
    ensures Survive(w, InsertLicense(license, w, i))
  {
    var gap := if i < |w| && w[i] != "" then [""] else [];
    LicenseShape(license, w, i, gap);
    InsertKeeps(w, w[..i], license + gap, w[i..], InsertLicense(license, w, i));
  }

  lemma LicenseShape(license: Lines, w: Lines, i: nat, gap: Lines)
    requires i <= |w| && gap == if i < |w| && w[i] != "" then [""] else []
    ensures InsertLicense(license, w, i) == w[..i] + (license + gap) + w[i..] && w == w[..i] + w[i..]
  {}

  lemma CutSurvives(ls: Lines, o: nat, c: nat)
    requires o <= c < |ls|
    ensures Survive(ls[..o] + ls[c + 1..], ls)
  {
    var w := ls[..o] + ls[c + 1..];
    InsertKeeps(w, ls[..o], ls[o..c + 1], ls[c + 1..], ls);
  }

  lemma LicenseKeepsLines(a: Action, ls: Lines)
    requires a.license.Some? ==> a.license.value != []
    ensures Survive(Outside(a, ls), License(a, ls).0)
  {
    if a.license.Some? {
      PassKeepsLines(a.license.value, ls);
    } else {
      SurviveSelf(ls);
    }
  }

  lemma PassKeepsLines(license: Lines, ls: Lines)
    requires license != []
    ensures Survive(OutsideOf(license, ls), LicensePass(license, ls).0)
  {
    var i := PassShape(license, ls);
    InsertKeepsLines(license, OutsideOf(license, ls), i);
    OutsideSurvives(license, ls);
  }

  /** The license pass inserts the license into what is outside, or leaves the file alone. */
  lemma PassShape(license: Lines, ls: Lines) returns (i: nat)
    requires license != []
    ensures i <= |OutsideOf(license, ls)|
    ensures LicensePass(license, ls).0 == InsertLicense(license, OutsideOf(license, ls), i) || LicensePass(license, ls).0 == ls
  {
    var o := Find(ls, 0, Entry(license), true);
    i := if o == |ls| then 0 else o;
  }

  lemma OutsideSurvives(license: Lines, ls: Lines)
    requires license != []
    ensures Survive(OutsideOf(license, ls), ls)
  {
    SurviveSelf(ls);
    var o := Find(ls, 0, Entry(license), true);
    if o < |ls| && Find(ls, o, Leave(license), false) < |ls| {
      CutSurvives(ls, o, Find(ls, o, Leave(license), false));
    }
  }

  /** Overwriting the first line with the text loses no other line. */
  lemma {:induction false} OverwriteFirst(w: Lines, text: string, k: nat, line: string)
    requires k < |w| && StartsWith(w[k], text) && forall j :: 0 <= j < k ==> !StartsWith(w[j], text)
    ensures Survive(DropFirst(w, text), w[k := line])
  {
    if k == 0 {
      SurviveSelf(w[1..]);
      assert w[0 := line][1..] == w[1..];
    } else {
      OverwriteFirst(w[1..], text, k - 1, line);
      assert w[k := line][1..] == w[1..][k - 1 := line];
    }
  }

  lemma {:induction false} OverwriteLast(w: Lines, text: string, k: nat, line: string)
    requires k < |w| && StartsWith(w[k], text) && forall j :: k < j < |w| ==> !StartsWith(w[j], text)
    ensures Survive(DropLast(w, text), w[k := line])
  {
    if k == 0 {
      assert !Occurs(w[1..], text);
      SurviveSelf(w[1..]);
      assert w[0 := line][1..] == w[1..];
    } else {
      assert w[1..][k - 1] == w[k];
      OverwriteLast(w[1..], text, k - 1, line);
      assert w[k := line][1..] == w[1..][k - 1 := line];
    }
  }

  /** Without the first #ifndef, the first #define and the last #endif. */
  function GuardFree(w: Lines): Lines {
    DropLast(DropFirst(DropFirst(w, "#ifndef"), "#define"), "#endif")
  }

  lemma GuardFreeMonotone(w: Lines, out: Lines)
    requires Survive(w, out)
    ensures Survive(GuardFree(w), GuardFree(out))
  {
    DropFirstMonotone(w, out, "#ifndef");
    DropFirstMonotone(DropFirst(w, "#ifndef"), DropFirst(out, "#ifndef"), "#define");
    DropLastMonotone(DropFirst(DropFirst(w, "#ifndef"), "#define"), DropFirst(DropFirst(out, "#ifndef"), "#define"), "#endif");
  }

  /** Rewriting the guards loses the three old guard lines and no other. */
  lemma UpdateKeepsLines(name: string, ls: Lines, i: nat, e: nat)
    requires Found(ls, i, e)
    ensures Survive(GuardFree(ls), Updated(name, ls, i, e))
  {
    var one := ls[i := IfLine(name)];
    var two := one[i + 1 := DefineLine(name)];
    FoundDirectives(ls, i, e);
    DirectiveLines(name);
    OverwriteFirst(ls, "#ifndef", i, IfLine(name));
    OverwriteFirst(one, "#define", i + 1, DefineLine(name));
    OverwriteLast(two, "#endif", e, EndLine(name));
    var x, y := DropFirst(ls, "#ifndef"), DropFirst(DropFirst(ls, "#ifndef"), "#define");
    DropFirstMonotone(x, one, "#define");
    SurviveThrough(y, DropFirst(one, "#define"), two);
    DropLastMonotone(y, two, "#endif");
    SurviveThrough(GuardFree(ls), DropLast(two, "#endif"), Updated(name, ls, i, e));
  }

  lemma InsertKeepsAll(name: string, ls: Lines, p: nat)
    requires p <= |ls|
    ensures Survive(ls, ls[..p] + ["", IfLine(name), DefineLine(name)] + ls[p..] + [EndLine(name), ""])
  {
    var guard, tail := ["", IfLine(name), DefineLine(name)], [EndLine(name), ""];
    var s := ls[..p] + guard + ls[p..];
    assert s == s + [] && s + tail == s + tail + [] && ls == ls[..p] + ls[p..];
    InsertKeeps(ls, ls[..p], guard, ls[p..], s);
    Inserted(ls, s, s, tail, [], s + tail);
  }

  /** The guard pass finds complete guards in this file and may rewrite them. */
  ghost predicate Rewrites(a: Action, ls: Lines) {
    a.guard.Some? && Found(ls, Find(ls, 0, "#ifndef", false), FindLast(ls, |ls|, "#endif"))
  }

  lemma GuardKeepsLines(a: Action, ls: Lines)
    ensures Survive(if Rewrites(a, ls) then GuardFree(ls) else ls, Guard(a, ls).0)
  {
    SurviveSelf(ls);
    if a.guard.Some? {
      var name := a.guard.value;
      var i, e := Find(ls, 0, "#ifndef", false), FindLast(ls, |ls|, "#endif");
      if Rewrites(a, ls) {
        GuardFreeSurvives(ls);
        UpdateKeepsLines(name, ls, i, e);
      } else if GuardPass(name, ls).1 {
        var p := if Find(ls, 0, "/*", true) == |ls| then 0 else Find(ls, 0, "*/", false) + 1;
        InsertKeepsAll(name, ls, p);
        assert Guard(a, ls).0 == ls[..p] + ["", IfLine(name), DefineLine(name)] + ls[p..] + [EndLine(name), ""];
      }
    }
  }

  lemma GuardFreeSurvives(w: Lines)
    ensures Survive(GuardFree(w), w)
  {
    var x, y := DropFirst(w, "#ifndef"), DropFirst(DropFirst(w, "#ifndef"), "#define");
    DropFirstSurvives(w, "#ifndef");
    DropFirstSurvives(x, "#define");
    DropLastSurvives(y, "#endif");
    SurviveThrough(y, x, w);
    SurviveThrough(GuardFree(w), y, w);
  }

  lemma NewlineKeepsLines(a: Action, w: Lines, ls: Lines)
    requires Survive(w, ls)
    ensures Survive(w, Newline(a, ls).0)
  {
    if a.cxx {
      var s := FrontPad(ls) + ls;
      Inserted(w, ls, [], FrontPad(ls), ls, s);
      Inserted(w, s, s, BackPad(ls), [], Newline(a, ls).0);
    }
  }

  /** Every line outside the license block is still there after polishing, unchanged and in
      order; only where complete guards are found, the three guard lines may be replaced. */
  lemma PolishedKeepsLines(a: Action, ls: Lines)
    requires a.license.Some? ==> a.license.value != []
    ensures var w := Outside(a, ls);
      Survive(if Rewrites(a, License(a, ls).0) then GuardFree(w) else w, Polished(a, ls).0)
  {
    var w, l := Outside(a, ls), License(a, ls).0;
    PolishedSteps(a, ls);
    LicenseKeepsLines(a, ls);
    GuardKeepsLines(a, l);
    if Rewrites(a, l) {
      GuardFreeMonotone(w, l);
      SurviveThrough(GuardFree(w), GuardFree(l), Guard(a, l).0);
      NewlineKeepsLines(a, GuardFree(w), Guard(a, l).0);
    } else {
      SurviveThrough(w, l, Guard(a, l).0);
      NewlineKeepsLines(a, w, Guard(a, l).0);
    }
  }
}
