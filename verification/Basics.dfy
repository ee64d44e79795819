/** Option type and small facts about sequences and sets shared by the other modules. */
module Basics {
  datatype Option<+T> = None | Some(value: T)

  /** Every element occurs once. */
  ghost predicate Distinct<T(!new)>(s: seq<T>) {
    forall i, j :: 0 <= i < j < |s| ==> s[i] != s[j]
  }

  /** `sub` is obtained from `s` by deleting elements. */
  ghost predicate Subsequence<T(!new)>(sub: seq<T>, s: seq<T>) {
    sub == [] || (s != [] && (if sub[0] == s[0] then Subsequence(sub[1..], s[1..])
                              else Subsequence(sub, s[1..])))
  }

  /** `part` occurs in `s` as a contiguous block. */
  predicate Contains<T(==)>(s: seq<T>, part: seq<T>) {
    exists k :: 0 <= k <= |s| && OccursAt(s, part, k)
  }

  predicate OccursAt<T(==)>(s: seq<T>, part: seq<T>, k: nat) {
    k + |part| <= |s| && s[k..k + |part|] == part
  }

  ghost predicate IsSuffix<T(!new)>(s: seq<T>, whole: seq<T>) {
    |s| <= |whole| && whole[|whole| - |s|..] == s
  }

  lemma DistinctMore<T(!new)>(s: seq<T>, x: T)
    requires Distinct(s) && x !in s
    ensures Distinct(s + [x])
  {}

  lemma MultisetTail<T(!new)>(a: seq<T>)
    requires a != []
    ensures multiset(a[1..]) == multiset(a) - multiset{a[0]}
  {
    assert a == [a[0]] + a[1..];
  }

  /** In a permutation of `a`, the first element of `a` can be taken out. */
  lemma TakeOut<T(!new)>(a: seq<T>, b: seq<T>) returns (k: nat)
    requires multiset(a) == multiset(b) && a != []
    ensures k < |b| && b[k] == a[0] && b == b[..k] + [a[0]] + b[k + 1..]
    ensures multiset(a[1..]) == multiset(b[..k] + b[k + 1..])
  {
    MultisetTail(a);
    assert a[0] in multiset(b);
    k :| 0 <= k < |b| && b[k] == a[0];
    assert b == b[..k] + [a[0]] + b[k + 1..];
    assert multiset(b) == multiset(b[..k]) + multiset{a[0]} + multiset(b[k + 1..]);
  }

  /** In a list without repetition an element counts once or not at all. */
  lemma CountDistinct<T(!new)>(a: seq<T>, x: T)
    requires Distinct(a)
    ensures multiset(a)[x] == if x in a then 1 else 0
  {
    if x in a {
      var k :| 0 <= k < |a| && a[k] == x;
      assert a == a[..k] + [x] + a[k + 1..];
      assert x !in a[..k] && x !in a[k + 1..];
    }
  }

  /** Lists without repetition and with the same elements are permutations of each other. */
  lemma DistinctPermutation<T(!new)>(a: seq<T>, b: seq<T>)
    requires Distinct(a) && Distinct(b) && forall x :: x in a <==> x in b
    ensures multiset(a) == multiset(b)
  {
    forall x ensures multiset(a)[x] == multiset(b)[x] {
      CountDistinct(a, x);
      CountDistinct(b, x);
    }
  }

  lemma {:induction false} SubsetSize<T(!new)>(a: set<T>, b: set<T>)
    requires a <= b
    ensures |a| <= |b|
    decreases a
  {
    if a != {} {
      var x :| x in a;
      SubsetSize(a - {x}, b - {x});
    }
  }
}
