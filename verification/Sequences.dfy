/** Facts about finite sequences that the rest of the project builds on: duplicate
    freedom, flattening, and permutations stated through multisets. */
module Sequences {

  datatype Option<+T> = None | Some(value: T)

  ghost predicate NoDup<T>(xs: seq<T>) {
    forall i, j :: 0 <= i < j < |xs| ==> xs[i] != xs[j]
  }

  ghost predicate Disjoint<T>(xs: seq<T>, ys: seq<T>) {
    forall i, j :: 0 <= i < |xs| && 0 <= j < |ys| ==> xs[i] != ys[j]
  }

  ghost predicate SameElements<T(!new)>(xs: seq<T>, ys: seq<T>) {
    forall x :: x in xs <==> x in ys
  }

  /** The concatenation of f(x) over the elements of xs, in order. */
  ghost function Flatten<A, B>(xs: seq<A>, f: A -> seq<B>): seq<B> {
    if xs == [] then [] else f(xs[0]) + Flatten(xs[1..], f)
  }

  ghost function Map<A, B>(xs: seq<A>, f: A -> B): (ys: seq<B>)
    ensures |ys| == |xs|
    ensures forall i :: 0 <= i < |xs| ==> ys[i] == f(xs[i])
  {
    seq(|xs|, i requires 0 <= i < |xs| => f(xs[i]))
  }

  ghost function Sum<A>(xs: seq<A>, f: A -> nat): nat {
    if xs == [] then 0 else f(xs[0]) + Sum(xs[1..], f)
  }

  /** The elements that follow the first occurrence of x. */
  function After<T(==)>(xs: seq<T>, x: T): seq<T> {
    if xs == [] then [] else if xs[0] == x then xs[1..] else After(xs[1..], x)
  }

  lemma {:induction false} AfterAt<T>(xs: seq<T>, k: nat)
    requires k < |xs| && NoDup(xs)
    ensures After(xs, xs[k]) == xs[k + 1..]
  {
    if k > 0 {
      assert xs[1..][k - 1] == xs[k];
      AfterAt(xs[1..], k - 1);
      assert xs[1..][k..] == xs[k + 1..];
    }
  }

  lemma {:induction false} AfterMember<T>(xs: seq<T>, x: T, y: T)
    requires y in After(xs, x)
    ensures y in xs
  {
    if xs[0] != x {
      AfterMember(xs[1..], x, y);
    }
  }

  lemma {:induction false} AfterConcat<T>(xs: seq<T>, ys: seq<T>, x: T)
    ensures After(xs + ys, x) == if x in xs then After(xs, x) + ys else After(ys, x)
  {
    if xs == [] {
      assert xs + ys == ys;
    } else {
      AfterConcat(xs[1..], ys, x);
      assert (xs + ys)[1..] == xs[1..] + ys;
    }
  }

  lemma {:induction false} SumSnoc<A>(xs: seq<A>, x: A, f: A -> nat)
    ensures Sum(xs + [x], f) == Sum(xs, f) + f(x)
  {
    if xs == [] {
      assert [] + [x] == [x];
    } else {
      SumSnoc(xs[1..], x, f);
      assert (xs + [x])[1..] == xs[1..] + [x];
    }
  }

  lemma PrefixSnoc<T>(xs: seq<T>, k: nat)
    requires k < |xs|
    ensures xs[..k] + [xs[k]] == xs[..k + 1]
  {}

  lemma NoDupConcat<T>(xs: seq<T>, ys: seq<T>)
    requires NoDup(xs) && NoDup(ys) && Disjoint(xs, ys)
    ensures NoDup(xs + ys)
  {}

  lemma {:induction false} NoDupCount<T>(xs: seq<T>, x: T)
    requires NoDup(xs)
    ensures multiset(xs)[x] == if x in xs then 1 else 0
  {
    if xs != [] {
      assert xs == [xs[0]] + xs[1..];
      NoDupCount(xs[1..], x);
      if x == xs[0] {
        assert x !in xs[1..];
      }
    }
  }

  /** Two duplicate free sequences with the same elements are permutations of each other. */
  lemma NoDupPermutation<T(!new)>(xs: seq<T>, ys: seq<T>)
    requires NoDup(xs) && NoDup(ys) && SameElements(xs, ys)
    ensures multiset(xs) == multiset(ys) && |xs| == |ys|
  {
    forall x ensures multiset(xs)[x] == multiset(ys)[x] {
      NoDupCount(xs, x);
      NoDupCount(ys, x);
    }
    assert multiset(xs) == multiset(ys);
    assert |multiset(xs)| == |xs| && |multiset(ys)| == |ys|;
  }

  lemma {:induction false} FlattenConcat<A, B>(xs: seq<A>, ys: seq<A>, f: A -> seq<B>)
    ensures Flatten(xs + ys, f) == Flatten(xs, f) + Flatten(ys, f)
  {
    if xs == [] {
      assert xs + ys == ys;
    } else {
      FlattenConcat(xs[1..], ys, f);
      assert (xs + ys)[1..] == xs[1..] + ys;
    }
  }

  lemma FlattenSingle<A, B>(x: A, f: A -> seq<B>)
    ensures Flatten([x], f) == f(x)
  {
    assert Flatten([x][1..], f) == [];
  }

  lemma {:induction false} FlattenMember<A, B>(xs: seq<A>, f: A -> seq<B>, b: B)
    ensures b in Flatten(xs, f) <==> exists i :: 0 <= i < |xs| && b in f(xs[i])
  {
    if xs != [] {
      FlattenMember(xs[1..], f, b);
      if i :| 0 <= i < |xs| && b in f(xs[i]) {
        if i > 0 {
          assert xs[1..][i - 1] == xs[i];
        }
      }
      if i :| 0 <= i < |xs[1..]| && b in f(xs[1..][i]) {
        assert xs[i + 1] == xs[1..][i];
      }
    }
  }

  lemma {:induction false} FlattenLength<A, B>(xs: seq<A>, f: A -> seq<B>, size: A -> nat)
    requires forall i :: 0 <= i < |xs| ==> |f(xs[i])| == size(xs[i])
    ensures |Flatten(xs, f)| == Sum(xs, size)
  {
    if xs != [] {
      forall i | 0 <= i < |xs[1..]| ensures |f(xs[1..][i])| == size(xs[1..][i]) {
        assert xs[1..][i] == xs[i + 1];
      }
      FlattenLength(xs[1..], f, size);
    }
  }

  /** Flattening keeps duplicates out when the pieces have none and are pairwise disjoint. */
  lemma {:induction false} FlattenNoDup<A, B>(xs: seq<A>, f: A -> seq<B>)
    requires forall i :: 0 <= i < |xs| ==> NoDup(f(xs[i]))
    requires forall i, j :: 0 <= i < j < |xs| ==> Disjoint(f(xs[i]), f(xs[j]))
    ensures NoDup(Flatten(xs, f))
  {
    if xs != [] {
      var rest := xs[1..];
      forall i | 0 <= i < |rest| ensures NoDup(f(rest[i])) {
        assert rest[i] == xs[i + 1];
      }
      forall i, j | 0 <= i < j < |rest| ensures Disjoint(f(rest[i]), f(rest[j])) {
        assert rest[i] == xs[i + 1] && rest[j] == xs[j + 1];
      }
      FlattenNoDup(rest, f);
      var tail := Flatten(rest, f);
      forall i, j | 0 <= i < |f(xs[0])| && 0 <= j < |tail| ensures f(xs[0])[i] != tail[j] {
        FlattenMember(rest, f, tail[j]);
        var k :| 0 <= k < |rest| && tail[j] in f(rest[k]);
        assert rest[k] == xs[k + 1];
        assert Disjoint(f(xs[0]), f(xs[k + 1]));
      }
      NoDupConcat(f(xs[0]), tail);
    }
  }

  /** Pulling one occurrence to the front permutes the flattening. */
  lemma FlattenPull<A, B>(xs: seq<A>, k: nat, f: A -> seq<B>)
    requires k < |xs|
    ensures multiset(Flatten(xs, f)) == multiset(f(xs[k])) + multiset(Flatten(xs[..k] + xs[k + 1..], f))
  {
    var l, r := xs[..k], xs[k + 1..];
    assert xs == l + ([xs[k]] + r);
    FlattenConcat(l, [xs[k]] + r, f);
    FlattenConcat([xs[k]], r, f);
    FlattenSingle(xs[k], f);
    FlattenConcat(l, r, f);
  }

  lemma {:induction false} FlattenPermutation<A, B>(xs: seq<A>, ys: seq<A>, f: A -> seq<B>)
    requires multiset(xs) == multiset(ys)
    ensures multiset(Flatten(xs, f)) == multiset(Flatten(ys, f))
    decreases |xs|
  {
    if xs == [] {
      assert |multiset(ys)| == 0;
      assert ys == [];
    } else {
      var x := xs[0];
      assert x in multiset(ys);
      var k :| 0 <= k < |ys| && ys[k] == x;
      var ys' := ys[..k] + ys[k + 1..];
      assert ys == ys[..k] + [x] + ys[k + 1..];
      assert xs == [x] + xs[1..];
      assert multiset(xs[1..]) == multiset(xs) - multiset{x};
      assert multiset(ys') == multiset(ys) - multiset{x};
      FlattenPermutation(xs[1..], ys', f);
      FlattenPull(ys, k, f);
    }
  }

  lemma {:induction false} FlattenFlatten<A, B, C>(xs: seq<A>, f: A -> seq<B>, g: B -> seq<C>, h: A -> seq<C>)
    requires forall i :: 0 <= i < |xs| ==> h(xs[i]) == Flatten(f(xs[i]), g)
    ensures Flatten(Flatten(xs, f), g) == Flatten(xs, h)
  {
    if xs != [] {
      forall i | 0 <= i < |xs[1..]| ensures h(xs[1..][i]) == Flatten(f(xs[1..][i]), g) {
        assert xs[1..][i] == xs[i + 1];
      }
      FlattenFlatten(xs[1..], f, g, h);
      FlattenConcat(f(xs[0]), Flatten(xs[1..], f), g);
    }
  }

  /** Flattenings that agree piece by piece are equal. */
  lemma {:induction false} FlattenCongruence<A, B>(xs: seq<A>, f: A -> seq<B>, g: A -> seq<B>)
    requires forall i :: 0 <= i < |xs| ==> f(xs[i]) == g(xs[i])
    ensures Flatten(xs, f) == Flatten(xs, g)
  {
    if xs != [] {
      forall i | 0 <= i < |xs[1..]| ensures f(xs[1..][i]) == g(xs[1..][i]) {
        assert xs[1..][i] == xs[i + 1];
      }
      FlattenCongruence(xs[1..], f, g);
    }
  }

  lemma {:induction false} MapIsFlatten<A, B>(xs: seq<A>, f: A -> B, g: A -> seq<B>)
    requires forall i :: 0 <= i < |xs| ==> g(xs[i]) == [f(xs[i])]
    ensures Map(xs, f) == Flatten(xs, g)
  {
    if xs != [] {
      forall i | 0 <= i < |xs[1..]| ensures g(xs[1..][i]) == [f(xs[1..][i])] {
        assert xs[1..][i] == xs[i + 1];
      }
      MapIsFlatten(xs[1..], f, g);
      assert Map(xs, f) == [f(xs[0])] + Map(xs[1..], f);
    }
  }

  /** Mapping two permutations of each other gives permutations of each other. */
  lemma MapPermutation<A, B>(xs: seq<A>, ys: seq<A>, f: A -> B)
    requires multiset(xs) == multiset(ys)
    ensures multiset(Map(xs, f)) == multiset(Map(ys, f))
  {
    var g := (a: A) => [f(a)];
    MapIsFlatten(xs, f, g);
    MapIsFlatten(ys, f, g);
    FlattenPermutation(xs, ys, g);
  }
}
