/** Binary search and the sorted vector set built on it. */
module FlatSets {
  import opened Sequences
  import opened CombSort

  // ----- lower_bound -----

  /** The elements for which the predicate holds come first. */
  ghost predicate Partitioned<E>(s: seq<E>, before: E -> bool) {
    forall i, j :: 0 <= i < j < |s| && before(s[j]) ==> before(s[i])
  }

  /** lower_bound: the first position whose element is not before the searched value. */
  method LowerBound<E>(s: seq<E>, before: E -> bool) returns (begin: nat)
    requires Partitioned(s, before)
    ensures begin <= |s|
    ensures forall i :: 0 <= i < begin ==> before(s[i])
    ensures forall i :: begin <= i < |s| ==> !before(s[i])
  {
    begin := 0;
    var count: int := |s|;
    while count > 0
      invariant 0 <= count && begin + count <= |s|
      invariant forall i :: 0 <= i < begin ==> before(s[i])
      invariant forall i :: begin + count <= i < |s| ==> !before(s[i])
      decreases count
    {
      var step := count / 2;
      var itr := begin + step;
      if before(s[itr]) {
        begin := itr + 1;
        count := count - (step + 1);
      } else {
        count := step;
      }
    }
  }

  /** find_first_lower_bound_of: the lower bound if its element is not behind the value either. */
  method FindFirst<E>(s: seq<E>, before: E -> bool, behind: E -> bool) returns (found: Option<nat>)
    requires Partitioned(s, before) && Partitioned(s, e => !behind(e))
    ensures found.Some? ==> found.value < |s| && !before(s[found.value]) && !behind(s[found.value])
    ensures found.None? ==> forall i :: 0 <= i < |s| ==> before(s[i]) || behind(s[i])
  {
    var lower := LowerBound(s, before);
    if lower != |s| && !behind(s[lower]) {
      found := Some(lower);
    } else {
      found := None;
      ghost var inFront := e => !behind(e);
      assert Partitioned(s, inFront);
      forall i | lower < i < |s| ensures behind(s[i]) {
        assert !inFront(s[lower]);
        assert !inFront(s[i]);
      }
    }
  }

  // ----- FlatSet -----

  /** A strict weak order: values that are not ordered fall into classes. */
  ghost predicate StrictWeak<T(!new)>(less: (T, T) -> bool) {
    Strict(less) && forall x, y, z {:trigger less(x, z), less(x, y)} :: less(x, y) ==> less(x, z) || less(z, y)
  }

  /** Comparing by a key, with any total order of the keys, is such an order. */
  lemma ByKeyIsStrictWeak<T(!new), K(!new)>(key: T -> K, below: (K, K) -> bool)
    requires Strict(below) && forall x, y {:trigger below(x, y)} :: x != y ==> below(x, y) || below(y, x)
    ensures StrictWeak((x: T, y: T) => below(key(x), key(y)))
  {
    var less := (x: T, y: T) => below(key(x), key(y));
    forall x, y, z | less(x, y) ensures less(x, z) || less(z, y) {
      assert below(key(x), key(y));
      assert key(x) == key(z) || below(key(x), key(z)) || below(key(z), key(x));
    }
  }

  /** Neither is before the other: what the container takes for equal. */
  predicate Equivalent<T>(less: (T, T) -> bool, x: T, y: T) {
    !less(x, y) && !less(y, x)
  }

  class FlatSet<T(==, !new)> {
    const less: (T, T) -> bool
    var storage: seq<T>

    ghost predicate Valid()
      reads this
    {
      StrictWeak(less) && Sorted(less, storage)
    }

    /** The mathematical set this container stands for. */
    ghost function Contents(): set<T>
      reads this
    {
      set x | x in storage
    }

    /** Some element counts as equal to the value. */
    ghost predicate Has(value: T)
      reads this
    {
      exists i :: 0 <= i < |storage| && Equivalent(less, storage[i], value)
    }

    constructor (less: (T, T) -> bool)
      requires StrictWeak(less)
      ensures Valid() && this.less == less && Contents() == {}
    {
      this.less := less;
      storage := [];
    }

    /** The lower bound of a value in the storage. */
    method Lower(value: T) returns (lower: nat)
      requires Valid()
      ensures lower <= |storage|
      ensures forall i :: 0 <= i < lower ==> less(storage[i], value)
      ensures forall i :: lower <= i < |storage| ==> !less(storage[i], value)
    {
      OrderPartitions(less, storage, value);
      lower := LowerBound(storage, e => less(e, value));
    }

    /** Inserting a value that counts as contained changes nothing. */
    method Insert(value: T) returns (index: nat, inserted: bool)
      requires Valid()
      modifies this
      ensures Valid() && (inserted <==> !old(Has(value)))
      ensures Contents() == old(Contents()) + if inserted then {value} else {}
      ensures |storage| == |old(storage)| + if inserted then 1 else 0
      ensures index < |storage| && if inserted then storage[index] == value else Equivalent(less, storage[index], value)
    {
      index := Lower(value);
      if index != |storage| && !less(value, storage[index]) {
        inserted := false;
      } else {
        inserted := true;
        NothingEquivalent(less, storage, index, value);
        InsertSorted(less, storage, index, value);
        ghost var before := storage;
        storage := storage[..index] + [value] + storage[index..];
        assert forall x :: x in storage <==> x in before || x == value;
      }
    }

    /** Erasing removes the one element that counts as equal. */
    method Erase(value: T) returns (count: nat)
      requires Valid()
      modifies this
      ensures Valid() && !Has(value)
      ensures count == if old(Has(value)) then 1 else 0
      ensures Contents() == set x | x in old(Contents()) && !Equivalent(less, x, value)
      ensures |storage| == |old(storage)| - count
    {
      var lower := Lower(value);
      if lower != |storage| && !less(value, storage[lower]) {
        EraseSorted(less, storage, lower, value);
        storage := storage[..lower] + storage[lower + 1..];
        count := 1;
      } else {
        NothingEquivalent(less, storage, lower, value);
        count := 0;
      }
    }

    method Find(value: T) returns (found: Option<nat>)
      requires Valid()
      ensures found.Some? <==> Has(value)
      ensures found.Some? ==> found.value < |storage| && Equivalent(less, storage[found.value], value)
    {
      OrderPartitions(less, storage, value);
      found := FindFirst(storage, e => less(e, value), e => less(value, e));
    }

    method Contains(value: T) returns (yes: bool)
      requires Valid()
      ensures yes <==> Has(value)
    {
      var found := Find(value);
      yes := found.Some?;
    }
  }

  lemma OrderPartitions<T(!new)>(less: (T, T) -> bool, s: seq<T>, value: T)
    requires Strict(less) && Sorted(less, s)
    ensures Partitioned(s, e => less(e, value)) && Partitioned(s, e => !less(value, e))
  {}

  lemma NothingEquivalent<T(!new)>(less: (T, T) -> bool, s: seq<T>, lower: nat, value: T)
    requires StrictWeak(less) && Sorted(less, s) && lower <= |s|
    requires forall i :: 0 <= i < lower ==> less(s[i], value)
    requires lower < |s| ==> less(value, s[lower])
    ensures forall i :: 0 <= i < |s| ==> !Equivalent(less, s[i], value)
    ensures forall i :: lower <= i < |s| ==> less(value, s[i])
  {
    forall i | lower < i < |s| ensures less(value, s[i]) {
      assert less(s[lower], s[i]);
    }
  }

  lemma InsertSorted<T(!new)>(less: (T, T) -> bool, s: seq<T>, k: nat, value: T)
    requires StrictWeak(less) && Sorted(less, s) && k <= |s|
    requires forall i :: 0 <= i < k ==> less(s[i], value)
    requires forall i :: k <= i < |s| ==> less(value, s[i])
    ensures Sorted(less, s[..k] + [value] + s[k..])
  {}

  /** Removing the element keeps the order, and no second equivalent one remains. */
  lemma EraseSorted<T(!new)>(less: (T, T) -> bool, s: seq<T>, k: nat, value: T)
    requires StrictWeak(less) && Sorted(less, s) && k < |s| && Equivalent(less, s[k], value)
    ensures var r := s[..k] + s[k + 1..];
      && Sorted(less, r)
      && (forall i :: 0 <= i < |r| ==> !Equivalent(less, r[i], value))
      && (forall x :: x in r <==> x in s && !Equivalent(less, x, value))
  {
    var r := s[..k] + s[k + 1..];
    forall i | 0 <= i < |s| && i != k ensures !Equivalent(less, s[i], value) {
      assert if i < k then less(s[i], s[k]) else less(s[k], s[i]);
    }
    forall x | x in s && !Equivalent(less, x, value) ensures x in r {
      var i :| 0 <= i < |s| && s[i] == x;
      assert if i < k then r[i] == x else r[i - 1] == x;
    }
  }
}
