/** Reflected enums: names packed into one character array, indices sorted by name and by
    value, and the lookups on them. */
module EnumIndex {
  import opened Sequences
  import opened CombSort
  import opened FlatSets

  /** enum_trait and its relatives. */
  datatype Trait = Trait(min: int, value: int -> int, transform: char -> char)

  datatype Entry = Entry(value: int, offset: nat, length: nat)

  datatype Enum = Enum(entries: seq<Entry>, chars: string, dense: bool) {
    function Name(i: nat): string {
      if i < |entries| && entries[i].offset + entries[i].length <= |chars|
      then chars[entries[i].offset..entries[i].offset + entries[i].length] else ""
    }

    function Value(i: nat): int {
      if i < |entries| then entries[i].value else 0
    }
  }

  // ----- What a scan over the candidate names finds -----

  /** The positions among the first n candidates that are enumerators. */
  ghost function Present(names: seq<string>, n: nat): seq<nat>
    requires n <= |names|
  {
    if n == 0 then [] else Present(names, n - 1) + (if names[n - 1] != "" then [n - 1] else [])
  }

  function Transformed(name: string, t: Trait): (r: string)
    ensures |r| == |name|
  {
    seq(|name|, i requires 0 <= i < |name| => t.transform(name[i]))
  }

  /** The transformed names, each followed by a newline. */
  ghost function Packed(names: seq<string>, t: Trait, n: nat): string
    requires n <= |names|
  {
    if n == 0 then ""
    else Packed(names, t, n - 1) + (if names[n - 1] != "" then Transformed(names[n - 1], t) + ['\n'] else "")
  }

  ghost function Entries(names: seq<string>, t: Trait, n: nat): seq<Entry>
    requires n <= |names|
  {
    if n == 0 then []
    else Entries(names, t, n - 1)
         + (if names[n - 1] != ""
            then [Entry(t.value(n - 1 + t.min), |Packed(names, t, n - 1)|, |names[n - 1]|)] else [])
  }

  /** No enumerator follows a gap at a non-negative value. */
  ghost predicate Continuous(names: seq<string>, min: int) {
    forall i, j :: 0 <= i < j < |names| && i + min >= 0 && names[i] == "" ==> names[j] == ""
  }

  /** Some name before position i is missing at a non-negative value. */
  ghost predicate Gap(names: seq<string>, i: nat, min: int)
    requires i <= |names|
  {
    exists k :: 0 <= k < i && k + min >= 0 && names[k] == ""
  }

  lemma ContinuousSnoc(names: seq<string>, i: nat, min: int)
    requires i < |names|
    ensures Continuous(names[..i + 1], min) <==> Continuous(names[..i], min) && (names[i] != "" ==> !Gap(names, i, min))
  {
    var seen, next := names[..i], names[..i + 1];
    assert forall k :: 0 <= k < i ==> next[k] == seen[k] == names[k];
    assert next[i] == names[i];
  }

  datatype EnumInfo = EnumInfo(size: nat, chars: nat, continuous: bool)

  /** enum_info_of: one scan counts enumerators and characters and detects gaps. */
  method InfoOf(names: seq<string>, t: Trait) returns (info: EnumInfo)
    ensures info.size == |Present(names, |names|)| == |Entries(names, t, |names|)|
    ensures info.chars == |Packed(names, t, |names|)| + 1
    ensures info.continuous <==> Continuous(names, t.min)
  {
    var size, chars, continuous, interleaved := 0, 1, true, false;
    var i := 0;
    while i < |names|
      invariant i <= |names|
      invariant size == |Present(names, i)| == |Entries(names, t, i)| && chars == |Packed(names, t, i)| + 1
      invariant continuous <==> Continuous(names[..i], t.min)
      invariant continuous ==> (interleaved <==> Gap(names, i, t.min))
    {
      ContinuousSnoc(names, i, t.min);
      if names[i] != "" {
        size := size + 1;
        chars := chars + |names[i]| + 1;
        if continuous && interleaved {
          continuous := false;
        }
      } else if continuous && !interleaved {
        if i + t.min >= 0 {
          interleaved := true;
        }
      }
      i := i + 1;
    }
    assert names[..|names|] == names;
    info := EnumInfo(size, chars, continuous);
  }

  /** The inner loop: one name, character by character, then a newline. */
  method WriteName(chars: array<char>, offset: nat, name: string, t: Trait)
    requires offset + |name| < chars.Length
    modifies chars
    ensures chars[..offset + |name| + 1] == old(chars[..offset]) + (Transformed(name, t) + ['\n'])
  {
    var cur := 0;
    while cur != |name|
      invariant cur <= |name|
      invariant forall k :: 0 <= k < offset ==> chars[k] == old(chars[k])
      invariant forall k :: 0 <= k < cur ==> chars[offset + k] == t.transform(name[k])
    {
      chars[offset + cur] := t.transform(name[cur]);
      cur := cur + 1;
    }
    chars[offset + |name|] := '\n';
  }

  lemma {:induction false} PackedGrows(names: seq<string>, t: Trait, n: nat)
    requires n <= |names|
    ensures |Packed(names, t, n)| <= |Packed(names, t, |names|)|
    ensures |Entries(names, t, n)| <= |Entries(names, t, |names|)|
    decreases |names| - n
  {
    if n < |names| {
      PackedGrows(names, t, n + 1);
    }
  }

  /** The enum that a scan over the candidate names produces. */
  ghost predicate Expands(e: Enum, names: seq<string>, t: Trait) {
    && e.entries == Entries(names, t, |names|)
    && e.chars == Packed(names, t, |names|) + ['\0']
    && (e.dense <==> Continuous(names, t.min) && t.min == 0)
  }

  /** The main loop: write every present name and record its entry. */
  method Pack(chars: array<char>, names: seq<string>, t: Trait) returns (entries: seq<Entry>, offset: nat)
    requires chars.Length == |Packed(names, t, |names|)| + 1
    modifies chars
    ensures entries == Entries(names, t, |names|)
    ensures offset < chars.Length && chars[..offset] == Packed(names, t, |names|)
  {
    entries, offset := [], 0;
    for i := 0 to |names|
      invariant entries == Entries(names, t, i)
      invariant offset < chars.Length && chars[..offset] == Packed(names, t, i)
    {
      PackedGrows(names, t, i + 1);
      var current := names[i];
      if current != "" {
        entries := entries + [Entry(t.value(i + t.min), offset, |current|)];
        WriteName(chars, offset, current, t);
        offset := offset + |current| + 1;
      }
    }
  }

  /** expand_linear_impl: the character array and the entries of an enum. */
  method Expand(names: seq<string>, t: Trait) returns (e: Enum)
    ensures Expands(e, names, t)
  {
    var info := InfoOf(names, t);
    var chars := new char[info.chars](_ => '\0');
    var entries, offset := Pack(chars, names, t);
    chars[info.chars - 1] := '\0';
    assert chars[..] == chars[..offset] + ['\0'];
    e := Enum(entries, chars[..], info.continuous && t.min == 0);
  }

  // ----- What the packing means -----

  lemma {:induction false} PackedPrefix(names: seq<string>, t: Trait, n: nat, m: nat)
    requires n <= m <= |names|
    ensures Packed(names, t, n) <= Packed(names, t, m)
    decreases m - n
  {
    if n < m {
      PackedPrefix(names, t, n, m - 1);
    }
  }

  lemma {:induction false} EntryAt(names: seq<string>, t: Trait, n: nat, k: nat)
    requires n <= |names|
    ensures |Entries(names, t, n)| == |Present(names, n)|
    ensures k < |Present(names, n)| ==>
      var p := Present(names, n)[k];
      && p < n && names[p] != ""
      && Entries(names, t, n)[k] == Entry(t.value(p + t.min), |Packed(names, t, p)|, |names[p]|)
  {
    if n > 0 {
      EntryAt(names, t, n - 1, k);
      var before := Present(names, n - 1);
      if k < |before| {
        assert Present(names, n)[k] == before[k] && Entries(names, t, n)[k] == Entries(names, t, n - 1)[k];
      } else if k < |Present(names, n)| {
        assert Present(names, n)[k] == n - 1;
      }
    }
  }

  /** Every packed name is recovered exactly from its offset and length, inside the array. */
  lemma NameRecovered(e: Enum, names: seq<string>, t: Trait, k: nat)
    requires Expands(e, names, t) && k < |e.entries|
    ensures |e.entries| == |Present(names, |names|)|
    ensures var p := Present(names, |names|)[k];
      && p < |names| && names[p] != ""
      && e.entries[k].offset + e.entries[k].length < |e.chars|
      && e.Name(k) == Transformed(names[p], t) && e.Value(k) == t.value(p + t.min)
      && e.chars[e.entries[k].offset + e.entries[k].length] == '\n' && e.chars[|e.chars| - 1] == '\0'
  {
    EntryAt(names, t, |names|, k);
    var p := Present(names, |names|)[k];
    var packed := Packed(names, t, p + 1);
    PackedPrefix(names, t, p + 1, |names|);
    assert e.chars[..|packed|] == packed;
    var o, l := e.entries[k].offset, e.entries[k].length;
    assert e.chars[o..o + l] == packed[o..o + l] == Transformed(names[p], t);
  }

  lemma {:induction false} DensePositions(names: seq<string>, n: nat)
    requires n <= |names| && Continuous(names, 0)
    ensures |Present(names, n)| <= n && forall k :: 0 <= k < |Present(names, n)| ==> Present(names, n)[k] == k
    ensures |Present(names, n)| < n ==> names[|Present(names, n)|] == ""
  {
    if n > 0 {
      DensePositions(names, n - 1);
    }
  }

  /** An enum is dense exactly if it starts at zero and its enumerators are the first positions. */
  lemma DenseIff(e: Enum, names: seq<string>, t: Trait)
    requires Expands(e, names, t)
    ensures e.dense <==>
            t.min == 0 && forall k :: 0 <= k < |Present(names, |names|)| ==> Present(names, |names|)[k] == k
  {
    var ps := Present(names, |names|);
    if e.dense {
      DensePositions(names, |names|);
    } else if t.min == 0 {
      var i, j :| 0 <= i < j < |names| && names[i] == "" && names[j] != "";
      PresentExactly(names, |names|, i);
      PresentExactly(names, |names|, j);
      var k :| 0 <= k < |ps| && ps[k] == j;
      assert i !in ps;
      if k == j {
        assert i < |ps| && ps[i] in ps;
      }
    }
  }

  /** In a dense enum, entry k stands for position k. */
  lemma DenseValues(e: Enum, names: seq<string>, t: Trait, k: nat)
    requires Expands(e, names, t) && e.dense && k < |e.entries|
    ensures e.Value(k) == t.value(k)
  {
    NameRecovered(e, names, t, k);
    DensePositions(names, |names|);
  }

  // ----- StringView order -----

  function LexLess(a: string, b: string, i: nat): bool
    requires |a| == |b|
    decreases |a| - i
  {
    if i >= |a| then false
    else if a[i] != b[i] then a[i] < b[i]
    else LexLess(a, b, i + 1)
  }

  /** StringView::operator<: shorter strings first, then by characters. */
  function StringLess(a: string, b: string): bool {
    if |a| != |b| then |a| < |b| else LexLess(a, b, 0)
  }

  lemma {:induction false} LexTransitive(a: string, b: string, c: string, i: nat)
    requires |a| == |b| == |c| && LexLess(a, b, i) && LexLess(b, c, i)
    ensures LexLess(a, c, i)
    decreases |a| - i
  {
    if a[i] == b[i] == c[i] {
      LexTransitive(a, b, c, i + 1);
    }
  }

  lemma {:induction false} LexIrreflexive(a: string, i: nat)
    ensures !LexLess(a, a, i)
    decreases |a| - i
  {
    if i < |a| {
      LexIrreflexive(a, i + 1);
    }
  }

  lemma {:induction false} LexConnected(a: string, b: string, i: nat)
    requires |a| == |b| && i <= |a| && a[..i] == b[..i] && a != b
    ensures LexLess(a, b, i) || LexLess(b, a, i)
    decreases |a| - i
  {
    assert a[..|a|] == a && b[..|b|] == b;
    if i < |a| && a[i] == b[i] {
      LexConnected(a, b, i + 1);
    }
  }

  /** Position k is the first where the strings differ, and a has the smaller character there. */
  ghost predicate FirstSmaller(a: string, b: string, k: nat) {
    k < |a| && k < |b| && a[k] < b[k] && forall j :: 0 <= j < k ==> a[j] == b[j]
  }

  lemma {:induction false} LexMeans(a: string, b: string, i: nat)
    requires |a| == |b| && i <= |a| && forall j :: 0 <= j < i ==> a[j] == b[j]
    ensures LexLess(a, b, i) <==> exists k :: FirstSmaller(a, b, k)
    decreases |a| - i
  {
    if i < |a| {
      if a[i] == b[i] {
        LexMeans(a, b, i + 1);
      } else {
        assert a[i] < b[i] ==> FirstSmaller(a, b, i);
      }
    }
  }

  /** A shorter string comes first, and among equally long ones the first differing character
      decides. */
  lemma StringLessMeans(a: string, b: string)
    ensures StringLess(a, b) <==> |a| < |b| || (|a| == |b| && exists k :: FirstSmaller(a, b, k))
  {
    if |a| == |b| {
      LexMeans(a, b, 0);
    }
  }

  lemma StringOrder()
    ensures forall a :: !StringLess(a, a)
    ensures forall a, b, c {:trigger StringLess(a, b), StringLess(b, c)} ::
              StringLess(a, b) && StringLess(b, c) ==> StringLess(a, c)
    ensures forall a, b {:trigger StringLess(a, b)} :: a != b ==> StringLess(a, b) || StringLess(b, a)
  {
    forall a ensures !StringLess(a, a) {
      LexIrreflexive(a, 0);
    }
    forall a, b, c | StringLess(a, b) && StringLess(b, c) ensures StringLess(a, c) {
      if |a| == |b| == |c| {
        LexTransitive(a, b, c, 0);
      }
    }
    forall a, b | a != b ensures StringLess(a, b) || StringLess(b, a) {
      if |a| == |b| {
        LexConnected(a, b, 0);
      }
    }
  }

  // ----- Sorted indices -----

  ghost predicate DistinctNames(e: Enum) {
    forall i, j :: 0 <= i < j < |e.entries| ==> e.Name(i) != e.Name(j)
  }

  ghost predicate DistinctValues(e: Enum) {
    forall i, j :: 0 <= i < j < |e.entries| ==> e.Value(i) != e.Value(j)
  }

  /** Present lists the positions of the enumerators, all of them, in order. */
  lemma {:induction false} PresentExactly(names: seq<string>, n: nat, p: nat)
    requires n <= |names|
    ensures p in Present(names, n) <==> p < n && names[p] != ""
    ensures forall i, j :: 0 <= i < j < |Present(names, n)| ==> Present(names, n)[i] < Present(names, n)[j]
    ensures forall i :: 0 <= i < |Present(names, n)| ==> Present(names, n)[i] < n
  {
    if n > 0 {
      PresentExactly(names, n - 1, p);
    }
  }

  /** Different enumerators, with names and values that the trait keeps apart, make an index. */
  lemma ExpandedDistinct(e: Enum, names: seq<string>, t: Trait)
    requires Expands(e, names, t)
    requires forall p, q :: 0 <= p < q < |names| && names[p] != "" && names[q] != "" ==>
               Transformed(names[p], t) != Transformed(names[q], t) && t.value(p + t.min) != t.value(q + t.min)
    ensures DistinctNames(e) && DistinctValues(e)
  {
    var ps := Present(names, |names|);
    PresentExactly(names, |names|, 0);
    forall i, j | 0 <= i < j < |e.entries| ensures e.Name(i) != e.Name(j) && e.Value(i) != e.Value(j) {
      NameRecovered(e, names, t, i);
      NameRecovered(e, names, t, j);
      assert ps[i] < ps[j];
    }
  }

  /** enum_find answers for the enumerators themselves: it finds a name exactly if it is the
      transformed name of one, and then that one's entry. */
  lemma FoundIffEnumerator(e: Enum, names: seq<string>, t: Trait, name: string, found: Option<nat>)
    requires Expands(e, names, t) && Finds(e, name, found)
    ensures found.Some? <==> exists p: nat :: p < |names| && names[p] != "" && Transformed(names[p], t) == name
    ensures found.Some? ==>
              && found.value < |Present(names, |names|)| && Present(names, |names|)[found.value] < |names|
              && Transformed(names[Present(names, |names|)[found.value]], t) == name
  {
    if found.Some? {
      NameRecovered(e, names, t, found.value);
    }
    forall p: nat | p < |names| && names[p] != "" && Transformed(names[p], t) == name ensures found.Some? {
      PresentExactly(names, |names|, p);
      var k :| 0 <= k < |Present(names, |names|)| && Present(names, |names|)[k] == p;
      EntryAt(names, t, |names|, k);
      NameRecovered(e, names, t, k);
    }
  }

  /** s lists the indices below n, each once. */
  ghost predicate IndexList(s: seq<nat>, n: nat) {
    |s| == n && NoDup(s) && forall i: nat :: i in s <==> i < n
  }

  function ByName(e: Enum): (nat, nat) -> bool {
    (i: nat, j: nat) => StringLess(e.Name(i), e.Name(j))
  }

  function ByValue(e: Enum): (nat, nat) -> bool {
    (i: nat, j: nat) => e.Value(i) < e.Value(j)
  }

  lemma SortedIndices(less: (nat, nat) -> bool, s: seq<nat>, n: nat)
    requires Strict(less) && Sorted(less, s) && multiset(s) == multiset(seq(n, i => i))
    ensures IndexList(s, n)
  {
    var all := seq(n, i => i);
    assert |multiset(s)| == |multiset(all)|;
    forall i: nat ensures i in s <==> i < n {
      assert i in s <==> i in multiset(all);
      if i < n {
        assert all[i] == i;
      }
    }
    forall i, j | 0 <= i < j < |s| ensures s[i] != s[j] {
      assert less(s[i], s[j]);
    }
  }

  /** Fill a buffer with the indices and sort it. */
  method SortIndices(n: nat, less: (nat, nat) -> bool) returns (s: seq<nat>)
    requires Strict(less) && forall i, j :: 0 <= i < j < n ==> less(i, j) || less(j, i)
    ensures IndexList(s, n) && Sorted(less, s)
  {
    var buffer := new nat[n](i => i);
    assert buffer[..] == seq(n, i => i);
    Sort(buffer, less);
    s := buffer[..];
    SortedIndices(less, s, n);
  }

  /** enum_names: the indices sorted by name. */
  method NameIndex(e: Enum) returns (s: seq<nat>)
    requires DistinctNames(e)
    ensures IndexList(s, |e.entries|) && Sorted(ByName(e), s)
  {
    StringOrder();
    s := SortIndices(|e.entries|, ByName(e));
  }

  /** enum_values of a sparse enum: the indices sorted by value. */
  method ValueIndex(e: Enum) returns (s: seq<nat>)
    requires DistinctValues(e)
    ensures IndexList(s, |e.entries|) && Sorted(ByValue(e), s)
  {
    s := SortIndices(|e.entries|, ByValue(e));
  }

  // ----- Lookups -----

  /** What a lookup by name has to deliver: the index that linear search would find. */
  ghost predicate Finds(e: Enum, name: string, found: Option<nat>) {
    match found
    case Some(i) => i < |e.entries| && e.Name(i) == name
    case None => forall i :: 0 <= i < |e.entries| ==> e.Name(i) != name
  }

  /** enum_find: binary search in the name index. */
  method Find(e: Enum, name: string) returns (found: Option<nat>)
    requires DistinctNames(e)
    ensures Finds(e, name, found)
  {
    StringOrder();
    var names := NameIndex(e);
    var before := (i: nat) => StringLess(e.Name(i), name);
    var behind := (i: nat) => StringLess(name, e.Name(i));
    NamePartition(e, names, name);
    assert Partitioned(names, before);
    assert Partitioned(names, (i: nat) => !behind(i));
    var at := FindFirst(names, before, behind);
    if at.Some? {
      found := Some(names[at.value]);
      assert names[at.value] in names;
    } else {
      found := None;
      forall i: nat | i < |e.entries| ensures e.Name(i) != name {
        assert i in names;
        var k :| 0 <= k < |names| && names[k] == i;
        assert before(names[k]) || behind(names[k]);
      }
    }
  }

  lemma NamePartition(e: Enum, names: seq<nat>, name: string)
    requires Sorted(ByName(e), names)
    ensures Partitioned(names, (i: nat) => StringLess(e.Name(i), name))
    ensures Partitioned(names, (i: nat) => !StringLess(name, e.Name(i)))
  {
    StringOrder();
    forall i, j | 0 <= i < j < |names|
      ensures StringLess(e.Name(names[j]), name) ==> StringLess(e.Name(names[i]), name)
      ensures StringLess(name, e.Name(names[i])) ==> StringLess(name, e.Name(names[j]))
    {
      assert ByName(e)(names[i], names[j]);
    }
  }

  /** enum_name of a sparse enum: binary search in the value index. */
  method SparseName(e: Enum, value: int) returns (name: string)
    requires DistinctValues(e) && exists i :: 0 <= i < |e.entries| && e.Value(i) == value
    ensures forall i :: 0 <= i < |e.entries| && e.Value(i) == value ==> name == e.Name(i)
  {
    var values := ValueIndex(e);
    var before := (i: nat) => e.Value(i) < value;
    var behind := (i: nat) => value < e.Value(i);
    forall i, j | 0 <= i < j < |values| ensures e.Value(values[i]) < e.Value(values[j]) {
      assert ByValue(e)(values[i], values[j]);
    }
    var at := FindFirst(values, before, behind);
    ghost var i: nat :| i < |e.entries| && e.Value(i) == value;
    assert i in values;
    ghost var k :| 0 <= k < |values| && values[k] == i;
    assert !before(values[k]) && !behind(values[k]);
    name := e.Name(values[at.value]);
    assert values[at.value] in values;
  }

  /** enum_name of a dense enum: the value is taken for the index. */
  function DenseName(e: Enum, value: int): string {
    if value < 0 then "" else e.Name(value)
  }

  /** enum_find(enum_name(v)) is v's index: the only one with that name. */
  lemma FindInvertsName(e: Enum, k: nat, found: Option<nat>)
    requires DistinctNames(e) && k < |e.entries| && Finds(e, e.Name(k), found)
    ensures found == Some(k)
  {}

  /** The dense lookup agrees with the sorted one on every value of the enum if and only if
      the trait maps every index to itself. */
  lemma DenseLookupExactly(e: Enum, names: seq<string>, t: Trait)
    requires Expands(e, names, t) && e.dense && DistinctNames(e)
    ensures (forall k: nat :: k < |e.entries| ==> DenseName(e, e.Value(k)) == e.Name(k))
       <==> (forall k: nat :: k < |e.entries| ==> t.value(k) == k)
  {
    forall k: nat | k < |e.entries|
      ensures DenseName(e, e.Value(k)) == e.Name(k) <==> t.value(k) == k
    {
      DenseValues(e, names, t, k);
      NameRecovered(e, names, t, k);
      var v := e.Value(k);
      if v >= 0 && v < |e.entries| && v != k {
        assert e.Name(v) != e.Name(k);
      }
    }
  }

  /** enum_mask maps index 0 to 1, so the dense lookup misses the first enumerator. */
  lemma MaskMissesFirst(e: Enum, names: seq<string>, t: Trait)
    requires Expands(e, names, t) && e.dense && DistinctNames(e) && e.entries != [] && t.value(0) == 1
    ensures DenseName(e, e.Value(0)) != e.Name(0)
  {
    DenseValues(e, names, t, 0);
    NameRecovered(e, names, t, 0);
  }
}
