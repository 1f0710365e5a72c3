/** Nested configuration values, and writing a reflected object into one: the serializer keeps
    what it finds and sets only what the object names. */
module Values {
  import opened Sequences

  /** A toml value: not yet initialized, a scalar, an array, or a table. */
  datatype Value = Empty | Scalar(text: string) | Array(elements: seq<Value>) | Table(entries: map<string, Value>)

  /** What reflection visits: a primitive, an array or set, or an object with named fields. */
  datatype Object = Primitive(text: string) | List(items: seq<Object>) | Fields(fields: map<string, Object>)

  type Path = seq<string>

  /** The const advance_scope, segment by segment. */
  function LookUp(v: Value, path: Path): Option<Value> {
    if path == [] then Some(v)
    else if v.Table? && path[0] in v.entries then LookUp(v.entries[path[0]], path[1..])
    else None
  }

  function EntriesOf(v: Value): map<string, Value> {
    if v.Table? then v.entries else map[]
  }

  /** What operator[] on a table leads to; a missing entry is created empty. */
  function EntryOf(v: Value, name: string): Value {
    if v.Table? && name in v.entries then v.entries[name] else Empty
  }

  /** What resize leaves at an index; a new element is empty. */
  function ElementOf(v: Value, i: nat): Value {
    if v.Array? && i < |v.elements| then v.elements[i] else Empty
  }

  /** toml_serialize: a primitive replaces the value, an array is resized and written element
      by element, and an object writes its fields into the table that is there. */
  function Write(v: Value, x: Object): Value
    decreases x
  {
    match x
    case Primitive(text) => Scalar(text)
    case List(items) => Array(seq(|items|, i requires 0 <= i < |items| => Write(ElementOf(v, i), items[i])))
    case Fields(fields) =>
      if fields == map[] then v
      else Table(map k | k in EntriesOf(v).Keys + fields.Keys ::
                   if k in fields then Write(EntryOf(v, k), fields[k]) else EntriesOf(v)[k])
  }

  // ----- What was written reads back -----

  /** The value holds the object: it has every element and field that the object names. */
  predicate Holds(v: Value, x: Object)
    decreases x
  {
    match x
    case Primitive(text) => v == Scalar(text)
    case List(items) =>
      v.Array? && |v.elements| == |items| && forall i :: 0 <= i < |items| ==> Holds(v.elements[i], items[i])
    case Fields(fields) =>
      forall k :: k in fields ==> v.Table? && k in v.entries && Holds(v.entries[k], fields[k])
  }

  lemma {:induction false} WriteHolds(v: Value, x: Object)
    ensures Holds(Write(v, x), x)
    decreases x
  {
    match x
    case Primitive(_) =>
    case List(items) =>
      forall i | 0 <= i < |items| ensures Holds(Write(v, x).elements[i], items[i]) {
        WriteHolds(ElementOf(v, i), items[i]);
      }
    case Fields(fields) =>
      forall k | k in fields ensures Holds(Write(v, x).entries[k], fields[k]) {
        WriteHolds(EntryOf(v, k), fields[k]);
      }
  }

  /** Writing changes nothing exactly if the value holds the object already. */
  lemma {:induction false} WriteUnchangedIff(v: Value, x: Object)
    ensures Write(v, x) == v <==> Holds(v, x)
    decreases x
  {
    WriteHolds(v, x);
    if Holds(v, x) {
      match x
      case Primitive(_) =>
      case List(items) =>
        forall i | 0 <= i < |items| ensures Write(v, x).elements[i] == v.elements[i] {
          WriteUnchangedIff(v.elements[i], items[i]);
        }
        assert Write(v, x).elements == v.elements;
      case Fields(fields) =>
        if fields != map[] {
          var k0 :| k0 in fields;
          forall k | k in v.entries ensures Write(v, x).entries[k] == v.entries[k] {
            if k in fields {
              WriteUnchangedIff(v.entries[k], fields[k]);
            }
          }
          assert Write(v, x).entries == v.entries;
        }
    }
  }

  /** The part of an object that a path of field names leads to. */
  function FieldAt(x: Object, path: Path): Option<Object> {
    if path == [] then Some(x)
    else if x.Fields? && path[0] in x.fields then FieldAt(x.fields[path[0]], path[1..])
    else None
  }

  /** Every field, however deep, reads back below the value it was written to. */
  lemma {:induction false} FieldReadsBack(v: Value, x: Object, path: Path)
    requires FieldAt(x, path).Some?
    ensures LookUp(Write(v, x), path).Some? && Holds(LookUp(Write(v, x), path).value, FieldAt(x, path).value)
    decreases |path|
  {
    if path == [] {
      WriteHolds(v, x);
    } else {
      FieldReadsBack(EntryOf(v, path[0]), x.fields[path[0]], path[1..]);
    }
  }

  // ----- What was not written stays -----

  /** No part of the object is written at or above the path, nor at anything below it. */
  predicate Untouched(x: Object, path: Path) {
    x.Fields? && (x.fields == map[]
      || (path != [] && (path[0] in x.fields ==> |path| > 1 && Untouched(x.fields[path[0]], path[1..]))))
  }

  /** Fields that the object does not name keep their values. */
  lemma {:induction false} WriteFrame(v: Value, x: Object, path: Path)
    requires Untouched(x, path)
    ensures LookUp(Write(v, x), path) == LookUp(v, path)
    decreases |path|
  {
    if x.fields != map[] && path[0] in x.fields {
      WriteFrame(EntryOf(v, path[0]), x.fields[path[0]], path[1..]);
    }
  }

  /** Nested tables with w at the end of the path. */
  function Planted(p: Path, w: Value): Value {
    if p == [] then w else Table(map[p[0] := Planted(p[1..], w)])
  }

  lemma {:induction false} PlantedFound(p: Path, w: Value)
    ensures LookUp(Planted(p, w), p) == Some(w)
    decreases |p|
  {
    if p != [] {
      PlantedFound(p[1..], w);
    }
  }

  /** A value that shows how the write reaches the path. */
  lemma {:induction false} NotUntouched(x: Object, path: Path) returns (v: Value)
    requires !Untouched(x, path)
    ensures LookUp(Write(v, x), path) != LookUp(v, path)
    decreases |path|
  {
    if !x.Fields? {
      v := Planted(path, Empty);
      PlantedFound(path, Empty);
    } else if path == [] {
      v := Empty;
    } else if |path| == 1 {
      v := Empty;
      assert LookUp(Write(v, x).entries[path[0]], path[1..]).Some?;
    } else {
      var w := NotUntouched(x.fields[path[0]], path[1..]);
      v := Table(map[path[0] := w]);
      assert EntryOf(v, path[0]) == w;
      assert LookUp(Write(v, x), path) == LookUp(Write(w, x.fields[path[0]]), path[1..]);
    }
  }

  /** What stays, exactly: a path reads the same after every write of the object if and only if
      the object does not touch it. */
  lemma UntouchedIff(x: Object, path: Path)
    ensures (forall v :: LookUp(Write(v, x), path) == LookUp(v, path)) <==> Untouched(x, path)
  {
    if Untouched(x, path) {
      forall v ensures LookUp(Write(v, x), path) == LookUp(v, path) {
        WriteFrame(v, x, path);
      }
    } else {
      var v := NotUntouched(x, path);
    }
  }

  // ----- When the last write wins -----

  /** Writing the object has the same result whatever was there before. */
  predicate Total(x: Object) {
    match x
    case Primitive(_) => true
    case List(items) => forall i :: 0 <= i < |items| ==> Total(items[i])
    case Fields(_) => false
  }

  /** Everything that a leaves behind is overwritten by b. */
  predicate Covered(a: Object, b: Object)
    decreases b
  {
    match b
    case Primitive(_) => true
    case List(items) =>
      || a == Fields(map[])
      || forall i :: 0 <= i < |items| ==>
           if a.List? && i < |a.items| then Covered(a.items[i], items[i]) else Total(items[i])
    case Fields(fields) =>
      a.Fields? && forall k :: k in a.fields ==> k in fields && Covered(a.fields[k], fields[k])
  }

  lemma {:induction false} TotalIgnores(v: Value, w: Value, x: Object)
    requires Total(x)
    ensures Write(v, x) == Write(w, x)
    decreases x
  {
    if x.List? {
      forall i | 0 <= i < |x.items| ensures Write(v, x).elements[i] == Write(w, x).elements[i] {
        TotalIgnores(ElementOf(v, i), ElementOf(w, i), x.items[i]);
      }
      assert Write(v, x).elements == Write(w, x).elements;
    }
  }

  lemma ListCollapses(v: Value, a: Object, b: Object)
    requires b.List? && forall i :: 0 <= i < |b.items| ==>
               Write(ElementOf(Write(v, a), i), b.items[i]) == Write(ElementOf(v, i), b.items[i])
    ensures Write(Write(v, a), b) == Write(v, b)
  {
    assert Write(Write(v, a), b).elements == Write(v, b).elements;
  }

  lemma WrittenKeys(v: Value, x: Object)
    requires x.Fields? && x.fields != map[]
    ensures Write(v, x).Table? && Write(v, x).entries.Keys == EntriesOf(v).Keys + x.fields.Keys
    ensures forall k :: k in x.fields ==> Write(v, x).entries[k] == Write(EntryOf(v, k), x.fields[k])
    ensures forall k :: k in EntriesOf(v) && k !in x.fields ==> Write(v, x).entries[k] == EntriesOf(v)[k]
  {}

  lemma FieldsCollapse(v: Value, a: Object, b: Object)
    requires a.Fields? && b.Fields? && a.fields != map[] && a.fields.Keys <= b.fields.Keys
    requires forall k :: k in b.fields ==>
               Write(EntryOf(Write(v, a), k), b.fields[k]) == Write(EntryOf(v, k), b.fields[k])
    ensures Write(Write(v, a), b) == Write(v, b)
  {
    var k0 :| k0 in a.fields;
    assert k0 in b.fields;
    WrittenKeys(v, a);
    WrittenKeys(v, b);
    WrittenKeys(Write(v, a), b);
    SameMap(Write(Write(v, a), b).entries, Write(v, b).entries);
  }

  lemma SameMap<K, V>(m: map<K, V>, n: map<K, V>)
    requires m.Keys == n.Keys && forall k :: k in m ==> m[k] == n[k]
    ensures m == n
  {}

  lemma {:induction false} CoveredCollapses(v: Value, a: Object, b: Object)
    requires Covered(a, b)
    ensures Write(Write(v, a), b) == Write(v, b)
    decreases b
  {
    if a != Fields(map[]) {
      match b
      case Primitive(_) =>
      case List(items) =>
        forall i | 0 <= i < |items| ensures Write(ElementOf(Write(v, a), i), items[i]) == Write(ElementOf(v, i), items[i]) {
          if a.List? && i < |a.items| {
            CoveredCollapses(ElementOf(v, i), a.items[i], items[i]);
          } else {
            TotalIgnores(ElementOf(Write(v, a), i), ElementOf(v, i), items[i]);
          }
        }
        ListCollapses(v, a, b);
      case Fields(fields) =>
        forall k | k in fields ensures Write(EntryOf(Write(v, a), k), fields[k]) == Write(EntryOf(v, k), fields[k]) {
          if k in a.fields {
            CoveredCollapses(EntryOf(v, k), a.fields[k], fields[k]);
          }
        }
        FieldsCollapse(v, a, b);
    }
  }

  // ----- Witnesses that the condition is exact -----

  lemma {:induction false} Bound(names: set<string>) returns (n: nat)
    ensures forall s :: s in names ==> |s| < n
  {
    n := 0;
    if names != {} {
      var s :| s in names;
      var m := Bound(names - {s});
      n := if |s| < m then m else |s| + 1;
      assert forall r :: r in names ==> r == s || r in names - {s};
    }
  }

  lemma FreshName(names: set<string>) returns (s: string)
    ensures s !in names
  {
    var n := Bound(names);
    s := seq(n, _ => 'x');
  }

  /** An array whose only initialized element is w at index i. */
  function ArrayWith(i: nat, w: Value): Value {
    Array(seq(i + 1, j => if j == i then w else Empty))
  }

  lemma {:induction false} NotTotal(x: Object) returns (v: Value)
    requires !Total(x)
    ensures Write(v, x) != Write(Empty, x)
    decreases x
  {
    if x.List? {
      var i :| 0 <= i < |x.items| && !Total(x.items[i]);
      var w := NotTotal(x.items[i]);
      v := ArrayWith(i, w);
      assert Write(v, x).elements[i] != Write(Empty, x).elements[i];
    } else if x.fields == map[] {
      v := Scalar("");
    } else {
      var k := FreshName(x.fields.Keys);
      v := Table(map[k := Empty]);
      assert k in Write(v, x).entries && k !in Write(Empty, x).entries;
    }
  }

  lemma ListSurvives(a: Object, b: Object, i: nat, w: Value)
    requires b.List? && i < |b.items| && a != Fields(map[])
    requires if a.List? && i < |a.items| then Write(Write(w, a.items[i]), b.items[i]) != Write(w, b.items[i])
             else Write(w, b.items[i]) != Write(Empty, b.items[i])
    ensures Write(Write(ArrayWith(i, w), a), b) != Write(ArrayWith(i, w), b)
  {
    var v := ArrayWith(i, w);
    assert ElementOf(v, i) == w;
    assert Write(Write(v, a), b).elements[i] != Write(v, b).elements[i];
  }

  /** A value that shows the difference; below objects it is a table. */
  lemma {:induction false} NotCovered(a: Object, b: Object) returns (v: Value)
    requires !Covered(a, b)
    ensures Write(Write(v, a), b) != Write(v, b)
    ensures a.Fields? && b.Fields? ==> v.Table?
    decreases b
  {
    if b.List? {
      var i :| 0 <= i < |b.items| && !(if a.List? && i < |a.items| then Covered(a.items[i], b.items[i]) else Total(b.items[i]));
      var w;
      if a.List? && i < |a.items| {
        w := NotCovered(a.items[i], b.items[i]);
      } else {
        w := NotTotal(b.items[i]);
      }
      ListSurvives(a, b, i, w);
      v := ArrayWith(i, w);
    } else if !a.Fields? {
      v := ReplacedTable(a, b);
    } else {
      var k :| k in a.fields && !(k in b.fields && Covered(a.fields[k], b.fields[k]));
      if k in b.fields {
        var w := NotCovered(a.fields[k], b.fields[k]);
        v := Table(map[k := w]);
        FieldSurvives(a, b, k, w);
      } else {
        v := Table(map[]);
        assert k in Write(v, a).entries && k in EntriesOf(Write(Write(v, a), b));
        assert k !in EntriesOf(Write(v, b));
      }
    }
  }

  lemma ReplacedTable(a: Object, b: Object) returns (v: Value)
    requires b.Fields? && !a.Fields?
    ensures Write(Write(v, a), b) != Write(v, b)
  {
    var k := FreshName(b.fields.Keys);
    v := Table(map[k := Empty]);
    assert k in EntriesOf(Write(v, b)) && k !in EntriesOf(Write(Write(v, a), b));
  }

  lemma FieldSurvives(a: Object, b: Object, k: string, w: Value)
    requires a.Fields? && b.Fields? && k in a.fields && k in b.fields
    requires Write(Write(w, a.fields[k]), b.fields[k]) != Write(w, b.fields[k])
    ensures Write(Write(Table(map[k := w]), a), b) != Write(Table(map[k := w]), b)
  {
    var v := Table(map[k := w]);
    assert EntryOf(v, k) == w && EntryOf(Write(v, a), k) == Write(w, a.fields[k]);
    assert Write(Write(v, a), b).entries[k] != Write(v, b).entries[k];
  }

  /** Two writes to the same place amount to the last one, whatever was there, if and only if
      the last one covers the first. */
  lemma CollapsesIff(a: Object, b: Object)
    ensures (forall v :: Write(Write(v, a), b) == Write(v, b)) <==> Covered(a, b)
  {
    if Covered(a, b) {
      forall v ensures Write(Write(v, a), b) == Write(v, b) {
        CoveredCollapses(v, a, b);
      }
    } else {
      var v := NotCovered(a, b);
    }
  }
}
