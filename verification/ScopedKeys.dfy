/** Scoped keys: dotted paths into nested tables, read by the const advance_scope and
    created by the mutable one. Objects are merged into the table that a key leads to. */
module ScopedKeys {
  import opened Sequences
  import opened Values

  // ----- Splitting keys -----

  /** The index of the first dot, or the length of the key. */
  function DotIndex(scope: string, from: nat): (i: nat)
    requires from <= |scope|
    ensures from <= i <= |scope| && (i < |scope| ==> scope[i] == '.')
    ensures forall k :: from <= k < i ==> scope[k] != '.'
    decreases |scope| - from
  {
    if from == |scope| || scope[from] == '.' then from else DotIndex(scope, from + 1)
  }

  /** Span::split: the part in front of the first separator, and what remains behind it. */
  function Split(scope: string): (string, string) {
    var i := DotIndex(scope, 0);
    if i < |scope| then (scope[..i], scope[i + 1..]) else (scope, "")
  }

  /** The segments the walk follows; an empty segment ends it. */
  function Segments(scope: string): Path
    decreases |scope|
  {
    var (current, rest) := Split(scope);
    if current == "" then [] else [current] + Segments(rest)
  }

  function Dotted(path: Path): string {
    if path == [] then "" else if |path| == 1 then path[0] else path[0] + ['.'] + Dotted(path[1..])
  }

  ghost predicate Proper(path: Path) {
    forall i :: 0 <= i < |path| ==> path[i] != "" && '.' !in path[i]
  }

  /** Every path of proper segments is reached by its dotted key. */
  lemma {:induction false} SegmentsOfDotted(path: Path)
    requires Proper(path)
    ensures Segments(Dotted(path)) == path
  {
    if path != [] {
      var key := Dotted(path);
      var i := DotIndex(key, 0);
      assert forall k :: 0 <= k < |path[0]| ==> key[k] == path[0][k];
      assert forall k :: 0 <= k < |path[0]| ==> path[0][k] in path[0];
      if |path| == 1 {
        assert i == |key| && Segments("") == [];
      } else {
        assert key[|path[0]|] == '.' && i == |path[0]|;
        assert key[..i] == path[0] && key[i + 1..] == Dotted(path[1..]);
        SegmentsOfDotted(path[1..]);
      }
    }
  }

  lemma SplitAt(head: string, more: string)
    requires '.' !in head
    ensures Split(head + "." + more) == (head, more)
  {
    var key := head + "." + more;
    assert forall k :: 0 <= k < |head| ==> key[k] == head[k] && head[k] in head;
    assert key[|head|] == '.' && DotIndex(key, 0) == |head|;
    assert key[..|head|] == head && key[|head| + 1..] == more;
  }

  /** An empty segment ends the path, whatever follows. */
  lemma {:induction false} SegmentsStopAtEmpty(path: Path, rest: string)
    requires Proper(path)
    ensures Segments(Stopped(path, rest)) == path
  {
    if path == [] {
      SplitAt("", rest);
      assert "" + "." + rest == "." + rest;
    } else {
      SplitAt(path[0], Stopped(path[1..], rest));
      SegmentsStopAtEmpty(path[1..], rest);
    }
  }

  /** The segments of a path, each followed by a dot, then a second dot and any text. */
  function Stopped(path: Path, rest: string): string {
    if path == [] then "." + rest else path[0] + "." + Stopped(path[1..], rest)
  }

  // ----- The two walks -----

  /** The entry behind a key as the mutable walk leaves it: a table, whatever it was before. */
  function TableBehind(v: Value, segment: string): Value {
    if EntryOf(v, segment).Table? then EntryOf(v, segment) else Table(map[])
  }

  /** The root after the mutable advance_scope has walked the path. */
  function Opened(v: Value, path: Path): Value
    decreases |path|
  {
    if path == [] then v
    else Table(EntriesOf(v)[path[0] := Opened(TableBehind(v, path[0]), path[1..])])
  }

  /** serialize: the root after an object was written to the node that the mutable walk found. */
  function Stored(v: Value, path: Path, x: Object): Value
    decreases |path|
  {
    if path == [] then Write(v, x)
    else Table(EntriesOf(v)[path[0] := Stored(TableBehind(v, path[0]), path[1..], x)])
  }

  /** Opening a scope is writing an object without fields. */
  lemma {:induction false} OpenedIsStored(v: Value, p: Path)
    ensures Opened(v, p) == Stored(v, p, Fields(map[]))
    decreases |p|
  {
    if p != [] {
      OpenedIsStored(TableBehind(v, p[0]), p[1..]);
    }
  }

  predicate Comparable(p: Path, q: Path) {
    p <= q || q <= p
  }

  /** Every field of a written object reads back below its key. */
  lemma {:induction false} StoredReadsBack(v: Value, p: Path, x: Object, r: Path)
    requires FieldAt(x, r).Some?
    ensures LookUp(Stored(v, p, x), p + r).Some? && Holds(LookUp(Stored(v, p, x), p + r).value, FieldAt(x, r).value)
    decreases |p|
  {
    if p == [] {
      assert p + r == r;
      FieldReadsBack(v, x, r);
    } else {
      assert (p + r)[1..] == p[1..] + r;
      StoredReadsBack(TableBehind(v, p[0]), p[1..], x, r);
    }
  }

  /** After the mutable walk the const walk finds the same node, and it is a table. */
  lemma {:induction false} OpenedFound(v: Value, p: Path)
    ensures LookUp(Opened(v, p), p).Some?
    ensures p != [] ==> LookUp(Opened(v, p), p).value.Table?
    ensures LookUp(v, p).Some? && (p == [] || LookUp(v, p).value.Table?) ==> LookUp(Opened(v, p), p) == LookUp(v, p)
    decreases |p|
  {
    if p != [] {
      var next := TableBehind(v, p[0]);
      OpenedFound(next, p[1..]);
      if p[1..] == [] {
        assert LookUp(Opened(v, p), p) == Some(next);
      } else if LookUp(v, p).Some? {
        assert LookUp(v.entries[p[0]], p[1..]).Some?;
      }
    }
  }

  lemma IncomparableTails(p: Path, q: Path)
    requires !Comparable(p, q)
    ensures p != [] && q != [] && (p[0] == q[0] ==> !Comparable(p[1..], q[1..]))
  {
    assert p != [] && q != [];
    assert p == [p[0]] + p[1..] && q == [q[0]] + q[1..];
    assert p[0] == q[0] && p[1..] <= q[1..] ==> p <= q;
    assert p[0] == q[0] && q[1..] <= p[1..] ==> q <= p;
  }

  /** Looking below a replaced scalar finds nothing, before and after. */
  lemma NothingBelow(v: Value, segment: string, q: Path)
    requires q != []
    ensures v.Table? && segment in v.entries ==>
              LookUp(TableBehind(v, segment), q) == LookUp(v.entries[segment], q)
    ensures !(v.Table? && segment in v.entries) ==> LookUp(TableBehind(v, segment), q) == None
  {}

  /** Writing at p leaves every path that is not comparable with p as it was, even when
      scalars on the way to p are replaced by tables. */
  lemma {:induction false} StoredFrame(v: Value, p: Path, q: Path, x: Object)
    requires !Comparable(p, q)
    ensures LookUp(Stored(v, p, x), q) == LookUp(v, q)
    decreases |p|
  {
    IncomparableTails(p, q);
    if p[0] == q[0] {
      StoredFrame(TableBehind(v, p[0]), p[1..], q[1..], x);
      assert q[1..] != [];
      NothingBelow(v, p[0], q[1..]);
    }
  }

  /** Below p, everything that the object does not name keeps its value. */
  lemma {:induction false} StoredKeepsRest(v: Value, p: Path, x: Object, r: Path)
    requires Untouched(x, r) && r != []
    ensures LookUp(Stored(v, p, x), p + r) == LookUp(v, p + r)
    decreases |p|
  {
    if p == [] {
      assert p + r == r;
      WriteFrame(v, x, r);
    } else {
      assert (p + r)[1..] == p[1..] + r;
      StoredKeepsRest(TableBehind(v, p[0]), p[1..], x, r);
      NothingBelow(v, p[0], p[1..] + r);
    }
  }

  lemma OpenedFrame(v: Value, p: Path, q: Path)
    requires !Comparable(p, q)
    ensures LookUp(Opened(v, p), q) == LookUp(v, q)
  {
    OpenedIsStored(v, p);
    StoredFrame(v, p, q, Fields(map[]));
  }

  /** Repeating the mutable walk changes nothing. */
  lemma {:induction false} OpenedTwice(v: Value, p: Path)
    ensures Opened(Opened(v, p), p) == Opened(v, p)
    decreases |p|
  {
    if p != [] {
      var inner := Opened(TableBehind(v, p[0]), p[1..]);
      OpenedTwice(TableBehind(v, p[0]), p[1..]);
      assert TableBehind(Opened(v, p), p[0]) == inner;
      assert EntriesOf(Opened(v, p))[p[0] := inner] == EntriesOf(Opened(v, p));
    }
  }

  /** Writing an object changes nothing exactly if the key leads to a table, or is empty, and
      what it leads to holds the object already. */
  lemma {:induction false} StoredUnchangedIff(v: Value, p: Path, x: Object)
    requires x.Fields?
    ensures Stored(v, p, x) == v <==>
            LookUp(v, p).Some? && (p != [] ==> LookUp(v, p).value.Table?) && Holds(LookUp(v, p).value, x)
    decreases |p|
  {
    if p == [] {
      WriteUnchangedIff(v, x);
    } else {
      var next := TableBehind(v, p[0]);
      StoredUnchangedIff(next, p[1..], x);
      StoredTable(next, p[1..], x);
      if v.Table? && p[0] in v.entries && v.entries[p[0]].Table? {
        assert Stored(v, p, x).entries[p[0]] == Stored(next, p[1..], x);
        assert v.entries[p[0] := next] == v.entries;
      } else {
        NotOpened(v, p);
        assert Stored(v, p, x).entries[p[0]].Table?;
      }
    }
  }

  lemma NotOpened(v: Value, p: Path)
    requires p != [] && !(v.Table? && p[0] in v.entries && v.entries[p[0]].Table?)
    ensures LookUp(v, p).Some? ==> !LookUp(v, p).value.Table?
  {
    if v.Table? && p[0] in v.entries && p[1..] != [] {
      assert LookUp(v.entries[p[0]], p[1..]) == None;
    }
  }

  lemma StoredTable(v: Value, p: Path, x: Object)
    requires x.Fields? && v.Table?
    ensures Stored(v, p, x).Table?
  {}

  /** The mutable walk changes nothing exactly if the path leads to a table already. */
  lemma OpenedUnchangedIff(v: Value, p: Path)
    ensures Opened(v, p) == v <==> LookUp(v, p).Some? && (p != [] ==> LookUp(v, p).value.Table?)
  {
    OpenedIsStored(v, p);
    StoredUnchangedIff(v, p, Fields(map[]));
  }

  // ----- Writing the same key again -----

  lemma {:induction false} CoveredStores(v: Value, p: Path, a: Object, b: Object)
    requires a.Fields? && b.Fields? && Covered(a, b)
    ensures Stored(Stored(v, p, a), p, b) == Stored(v, p, b)
    decreases |p|
  {
    if p == [] {
      CoveredCollapses(v, a, b);
    } else {
      var next := TableBehind(v, p[0]);
      CoveredStores(next, p[1..], a, b);
      assert Stored(next, p[1..], a).Table?;
      assert TableBehind(Stored(v, p, a), p[0]) == Stored(next, p[1..], a);
      assert EntriesOf(Stored(v, p, a))[p[0] := Stored(next, p[1..], b)] == EntriesOf(v)[p[0] := Stored(next, p[1..], b)];
    }
  }

  lemma {:induction false} StoredInPlanted(p: Path, w: Value, x: Object)
    requires w.Table? && x.Fields?
    ensures Stored(Planted(p, w), p, x) == Planted(p, Write(w, x)) && Write(w, x).Table?
    decreases |p|
  {
    if p != [] {
      StoredInPlanted(p[1..], w, x);
      assert map[p[0] := Planted(p[1..], w)][p[0] := Planted(p[1..], Write(w, x))] == map[p[0] := Planted(p[1..], Write(w, x))];
    }
  }

  lemma {:induction false} PlantedInjective(p: Path, w: Value, u: Value)
    requires Planted(p, w) == Planted(p, u)
    ensures w == u
    decreases |p|
  {
    if p != [] {
      assert Planted(p, w).entries[p[0]] == Planted(p, u).entries[p[0]];
      PlantedInjective(p[1..], w, u);
    }
  }

  /** Two writes to a key amount to the last one, whatever the configuration holds, if and
      only if the last object covers the first. What is written to a key is always an object
      with fields, because reflection_visit starts with one. */
  lemma LastWriteWinsIff(p: Path, a: Object, b: Object)
    requires a.Fields? && b.Fields?
    ensures (forall v :: Stored(Stored(v, p, a), p, b) == Stored(v, p, b)) <==> Covered(a, b)
  {
    if Covered(a, b) {
      forall v ensures Stored(Stored(v, p, a), p, b) == Stored(v, p, b) {
        CoveredStores(v, p, a, b);
      }
    } else {
      var w := NotCovered(a, b);
      StoredInPlanted(p, w, a);
      StoredInPlanted(p, Write(w, a), b);
      StoredInPlanted(p, w, b);
      if Stored(Stored(Planted(p, w), p, a), p, b) == Stored(Planted(p, w), p, b) {
        PlantedInjective(p, Write(Write(w, a), b), Write(w, b));
      }
    }
  }

  /** The root of a configuration stays a table, or empty until something is written. */
  lemma StoredKeepsRoot(v: Value, p: Path, x: Object)
    requires x.Fields? && (v.Empty? || v.Table?)
    ensures Stored(v, p, x).Empty? || Stored(v, p, x).Table?
  {}

  // ----- The mutable walk as it runs -----

  /** One step of the walk: the table it went through and the entry it took. */
  datatype Frame = Frame(entries: map<string, Value>, key: string)

  /** The root seen from a reference into it: the tables above, and the value referred to. */
  function Plug(above: seq<Frame>, focus: Value): Value {
    if above == [] then focus
    else
      var last := above[|above| - 1];
      Plug(above[..|above| - 1], Table(last.entries[last.key := focus]))
  }

  function PathOf(above: seq<Frame>): Path {
    seq(|above|, i requires 0 <= i < |above| => above[i].key)
  }

  lemma {:induction false} LookUpConcat(v: Value, p: Path, q: Path)
    ensures LookUp(v, p + q) == if LookUp(v, p).Some? then LookUp(LookUp(v, p).value, q) else None
    decreases |p|
  {
    if p == [] {
      assert p + q == q;
    } else {
      assert (p + q)[1..] == p[1..] + q;
      if v.Table? && p[0] in v.entries {
        LookUpConcat(v.entries[p[0]], p[1..], q);
      }
    }
  }

  /** The reference is the node on its path: what is assigned through it, the const walk finds. */
  lemma {:induction false} SameNode(above: seq<Frame>, focus: Value)
    ensures LookUp(Plug(above, focus), PathOf(above)) == Some(focus)
  {
    if above != [] {
      var n := |above| - 1;
      var table := Table(above[n].entries[above[n].key := focus]);
      SameNode(above[..n], table);
      LookUpConcat(Plug(above, focus), PathOf(above[..n]), [above[n].key]);
      assert PathOf(above) == PathOf(above[..n]) + [above[n].key];
      assert LookUp(table, [above[n].key]) == Some(focus);
    }
  }

  lemma PlugSnoc(above: seq<Frame>, f: Frame, focus: Value)
    ensures Plug(above + [f], focus) == Plug(above, Table(f.entries[f.key := focus]))
    ensures PathOf(above + [f]) == PathOf(above) + [f.key]
  {
    assert (above + [f])[..|above|] == above;
  }

  /** A step of the walk keeps what storing through the reference amounts to. */
  lemma StepDown(above: seq<Frame>, focus: Value, scope: string, x: Object)
    requires Segments(scope) != []
    ensures var (current, rest) := Split(scope);
      && Plug(above + [Frame(EntriesOf(focus), current)], Stored(TableBehind(focus, current), Segments(rest), x))
         == Plug(above, Stored(focus, Segments(scope), x))
      && PathOf(above + [Frame(EntriesOf(focus), current)]) + Segments(rest) == PathOf(above) + Segments(scope)
  {
    var (current, rest) := Split(scope);
    SegmentsCons(scope);
    StoredCons(focus, current, Segments(rest), x);
    PlugSnoc(above, Frame(EntriesOf(focus), current), Stored(TableBehind(focus, current), Segments(rest), x));
    ConsConcat(PathOf(above), current, Segments(rest));
  }

  lemma SegmentsCons(scope: string)
    requires Segments(scope) != []
    ensures Segments(scope) == [Split(scope).0] + Segments(Split(scope).1)
  {}

  lemma StoredCons(v: Value, segment: string, rest: Path, x: Object)
    ensures Stored(v, [segment] + rest, x) == Table(EntriesOf(v)[segment := Stored(TableBehind(v, segment), rest, x)])
  {
    assert ([segment] + rest)[1..] == rest;
  }

  lemma ConsConcat(p: Path, segment: string, q: Path)
    ensures (p + [segment]) + q == p + ([segment] + q)
  {}

  /** The mutable advance_scope: a reference to the node behind the key, with every value on the
      way made a table. Assigning through it is what storing does. */
  method OpenScope(v: Value, key: string) returns (above: seq<Frame>, focus: Value)
    ensures PathOf(above) == Segments(key) && Plug(above, focus) == Opened(v, Segments(key))
    ensures forall x :: Plug(above, Write(focus, x)) == Stored(v, Segments(key), x)
  {
    var scope := key;
    above, focus := [], v;
    while true
      invariant PathOf(above) + Segments(scope) == Segments(key)
      invariant forall x :: Plug(above, Stored(focus, Segments(scope), x)) == Stored(v, Segments(key), x)
      decreases |scope|
    {
      var (current, rest) := Split(scope);
      if current == "" {
        break;
      }
      ghost var before, top := above, focus;
      StepDown(before, top, scope, Fields(map[]));
      var next := EntryOf(focus, current);
      if !next.Table? {
        next := Table(map[]);
      }
      above, focus := above + [Frame(EntriesOf(focus), current)], next;
      forall x ensures Plug(above, Stored(focus, Segments(rest), x)) == Stored(v, Segments(key), x) {
        StepDown(before, top, scope, x);
      }
      scope := rest;
    }
    OpenedIsStored(v, Segments(key));
    assert Write(focus, Fields(map[])) == focus;
  }

  // ----- The read-only loop -----

  /** The const advance_scope as it runs: split off one segment per round. */
  method AdvanceScope(v: Value, key: string) returns (found: Option<Value>)
    ensures found == LookUp(v, Segments(key))
  {
    var itr, scope := v, key;
    while true
      invariant LookUp(v, Segments(key)) == LookUp(itr, Segments(scope))
      decreases |scope|
    {
      var (current, rest) := Split(scope);
      if current == "" {
        return Some(itr);
      }
      assert Segments(scope)[1..] == Segments(rest);
      if itr.Table? && current in itr.entries {
        itr := itr.entries[current];
      } else {
        return None;
      }
      scope := rest;
    }
  }
}
