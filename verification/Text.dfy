/** Strings as sequences of UTF-16 code units, their order, and sorting by key. */
module Text {
  import opened Basics

  type CodeUnit = u: nat | u < 0x10000
  type Text = seq<CodeUnit>

  /** The code units of an ASCII literal. */
  function Ascii(s: string): (t: Text)
    ensures |t| == |s|
  {
    seq(|s|, i requires 0 <= i < |s| => if s[i] as int < 128 then s[i] as int else 63)
  }

  predicate IsHigh(u: CodeUnit) { 0xD800 <= u < 0xDC00 }
  predicate IsLow(u: CodeUnit) { 0xDC00 <= u < 0xE000 }

  /** The string starts with a surrogate pair, one code point outside the basic plane. */
  predicate StartsWithPair(s: Text) {
    |s| > 1 && IsHigh(s[0]) && IsLow(s[1])
  }

  /** White space as `String.prototype.trim` removes it. */
  predicate IsSpace(u: CodeUnit) {
    9 <= u <= 13 || u == 32 || u == 0xA0 || u == 0x1680 || 0x2000 <= u <= 0x200A
    || u == 0x2028 || u == 0x2029 || u == 0x202F || u == 0x205F || u == 0x3000 || u == 0xFEFF
  }

  /** The string is not empty after trimming. */
  predicate NonBlank(s: Text) {
    exists i :: 0 <= i < |s| && !IsSpace(s[i])
  }

  /** Order by code units, as the default sort and the `<` operator on strings compare. */
  predicate Less(a: Text, b: Text) {
    b != [] && (a == [] || a[0] < b[0] || (a[0] == b[0] && Less(a[1..], b[1..])))
  }

  lemma {:induction false} LessTotal(a: Text, b: Text)
    ensures a == b || Less(a, b) || Less(b, a)
    ensures !(Less(a, b) && Less(b, a)) && !Less(a, a)
  {
    if a != [] && b != [] && a[0] == b[0] {
      LessTotal(a[1..], b[1..]);
      assert a == [a[0]] + a[1..] && b == [b[0]] + b[1..];
    }
    if a != [] { LessTotal(a[1..], a[1..]); }
  }

  lemma {:induction false} LessTransitive(a: Text, b: Text, c: Text)
    requires Less(a, b) && Less(b, c)
    ensures Less(a, c)
  {
    if a != [] && a[0] == b[0] && b[0] == c[0] {
      LessTransitive(a[1..], b[1..], c[1..]);
    }
  }

  /** `a` comes before `b`: a proper beginning of it, or smaller at the first code unit that differs. */
  ghost predicate Precedes(a: Text, b: Text) {
    exists k: nat :: PrecedesAt(a, b, k)
  }

  ghost predicate PrecedesAt(a: Text, b: Text, k: nat) {
    && k <= |a| && k < |b| && a[..k] == b[..k]
    && (k == |a| || a[k] < b[k])
  }

  lemma {:induction false} LessMeaning(a: Text, b: Text)
    ensures Less(a, b) <==> Precedes(a, b)
  {
    if b != [] {
      if a == [] || a[0] < b[0] {
        assert PrecedesAt(a, b, 0);
      } else if a[0] == b[0] {
        LessMeaning(a[1..], b[1..]);
        if Precedes(a[1..], b[1..]) {
          var k: nat :| PrecedesAt(a[1..], b[1..], k);
          assert a[..k + 1] == [a[0]] + a[1..][..k] && b[..k + 1] == [b[0]] + b[1..][..k];
          assert PrecedesAt(a, b, k + 1);
        }
        if Precedes(a, b) {
          var k: nat :| PrecedesAt(a, b, k);
          assert a[1..][..k - 1] == a[..k][1..] && b[1..][..k - 1] == b[..k][1..];
          assert PrecedesAt(a[1..], b[1..], k - 1);
        }
      } else {
        NotBefore(a, b);
      }
    }
  }

  lemma NotBefore(a: Text, b: Text)
    requires a != [] && b != [] && a[0] > b[0]
    ensures !Precedes(a, b)
  {
    forall k: nat ensures !PrecedesAt(a, b, k) {
      if 0 < k <= |a| && k < |b| { assert a[..k][0] != b[..k][0]; }
    }
  }

  datatype Entry<+V> = Entry(key: Text, value: V)

  /** Keys strictly increasing. */
  ghost predicate Sorted<V(!new)>(s: seq<Entry<V>>) {
    forall i, j :: 0 <= i < j < |s| ==> Less(s[i].key, s[j].key)
  }

  ghost predicate DistinctKeys<V(!new)>(s: seq<Entry<V>>) {
    forall i, j :: 0 <= i < j < |s| ==> s[i].key != s[j].key
  }

  function Insert<V>(e: Entry<V>, s: seq<Entry<V>>): seq<Entry<V>> {
    if s == [] || !Less(s[0].key, e.key) then [e] + s else [s[0]] + Insert(e, s[1..])
  }

  function SortByKey<V>(s: seq<Entry<V>>): seq<Entry<V>> {
    if s == [] then [] else Insert(s[0], SortByKey(s[1..]))
  }

  lemma {:induction false} InsertPermutes<V(!new)>(e: Entry<V>, s: seq<Entry<V>>)
    ensures multiset(Insert(e, s)) == multiset(s) + multiset{e}
  {
    hide Less;
    if s != [] && Less(s[0].key, e.key) {
      InsertPermutes(e, s[1..]);
      assert s == [s[0]] + s[1..];
    }
  }

  lemma {:induction false} InsertSorts<V(!new)>(e: Entry<V>, s: seq<Entry<V>>)
    requires Sorted(s) && forall i :: 0 <= i < |s| ==> s[i].key != e.key
    ensures Sorted(Insert(e, s))
  {
    hide Less;
    if s == [] || !Less(s[0].key, e.key) {
      forall j | 0 <= j < |s| ensures Less(e.key, s[j].key) {
        LessTotal(e.key, s[0].key);
        if j > 0 { LessTransitive(e.key, s[0].key, s[j].key); }
      }
    } else {
      InsertSorts(e, s[1..]);
      InsertPermutes(e, s[1..]);
      var rest := Insert(e, s[1..]);
      forall j | 0 <= j < |rest| ensures Less(s[0].key, rest[j].key) {
        assert rest[j] in multiset(rest);
        assert rest[j] == e || rest[j] in s[1..];
      }
    }
  }

  /** Sorting permutes, and distinct keys come out strictly increasing. */
  lemma {:induction false} SortByKeySorts<V(!new)>(s: seq<Entry<V>>)
    ensures multiset(SortByKey(s)) == multiset(s)
    ensures DistinctKeys(s) ==> Sorted(SortByKey(s))
  {
    hide Insert, Sorted, DistinctKeys;
    if s == [] {
      SortedNone<V>();
    } else {
      var rest := SortByKey(s[1..]);
      SortByKeySorts(s[1..]);
      InsertPermutes(s[0], rest);
      assert s == [s[0]] + s[1..];
      if DistinctKeys(s) {
        DistinctRest(s, rest);
        InsertSorts(s[0], rest);
      }
    }
  }

  /** In code unit order, each key before every later one. */
  ghost predicate Ascending<V(!new)>(s: seq<Entry<V>>) {
    forall i, j :: 0 <= i < j < |s| ==> Precedes(s[i].key, s[j].key)
  }

  lemma SortedAscends<V(!new)>(s: seq<Entry<V>>)
    ensures Sorted(s) <==> Ascending(s)
  {
    hide Less, Precedes;
    forall i, j | 0 <= i < j < |s| ensures Less(s[i].key, s[j].key) <==> Precedes(s[i].key, s[j].key) {
      LessMeaning(s[i].key, s[j].key);
    }
  }

  /** Sorting permutes, and distinct keys come out in ascending code unit order. */
  lemma SortAscends<V(!new)>(s: seq<Entry<V>>)
    requires DistinctKeys(s)
    ensures multiset(SortByKey(s)) == multiset(s) && Ascending(SortByKey(s))
  {
    hide Sorted, Ascending, SortByKey;
    SortByKeySorts(s);
    SortedAscends(SortByKey(s));
  }

  lemma SortedNone<V(!new)>()
    ensures Sorted<V>([])
  {}

  lemma DistinctRest<V(!new)>(s: seq<Entry<V>>, rest: seq<Entry<V>>)
    requires s != [] && DistinctKeys(s) && multiset(rest) == multiset(s[1..])
    ensures DistinctKeys(s[1..]) && forall i :: 0 <= i < |rest| ==> rest[i].key != s[0].key
  {
    forall i | 0 <= i < |rest| ensures rest[i].key != s[0].key {
      assert rest[i] in multiset(rest);
      assert rest[i] in s[1..];
    }
  }

  lemma SameHead<V(!new)>(a: seq<Entry<V>>, b: seq<Entry<V>>)
    requires Sorted(a) && Sorted(b) && a != [] && b != [] && a[0] in b && b[0] in a
    ensures a[0] == b[0]
  {
    var i :| 0 <= i < |b| && b[i] == a[0];
    var j :| 0 <= j < |a| && a[j] == b[0];
    if i > 0 && j > 0 { LessTotal(a[0].key, b[0].key); }
  }

  /** A strictly sorted list is determined by its elements. */
  lemma {:induction false} SortedUnique<V(!new)>(a: seq<Entry<V>>, b: seq<Entry<V>>)
    requires Sorted(a) && Sorted(b) && multiset(a) == multiset(b)
    ensures a == b
  {
    assert |a| == |multiset(a)| == |multiset(b)| == |b|;
    if a != [] {
      assert a[0] in multiset(b) && b[0] in multiset(a);
      SameHead(a, b);
      MultisetTail(a);
      MultisetTail(b);
      SortedUnique(a[1..], b[1..]);
      assert a == [a[0]] + a[1..] && b == [b[0]] + b[1..];
    }
  }

  lemma CountOnce<V(!new)>(a: seq<Entry<V>>, k: nat)
    requires k < |a| && DistinctKeys(a)
    ensures multiset(a)[a[k]] == 1
  {
    assert a == a[..k] + [a[k]] + a[k + 1..];
    assert a[k] !in a[..k] && a[k] !in a[k + 1..];
  }

  lemma CountTwice<T(!new)>(b: seq<T>, i: nat, j: nat)
    requires i < j < |b| && b[i] == b[j]
    ensures multiset(b)[b[i]] >= 2
  {
    assert b == b[..j] + [b[j]] + b[j + 1..];
    assert b[..j][i] in multiset(b[..j]);
  }

  lemma DistinctKeysPermuted<V(!new)>(a: seq<Entry<V>>, b: seq<Entry<V>>)
    requires multiset(a) == multiset(b) && DistinctKeys(a)
    ensures DistinctKeys(b)
  {
    forall i, j | 0 <= i < j < |b| ensures b[i].key != b[j].key {
      assert b[i] in multiset(a) && b[j] in multiset(a);
      var k :| 0 <= k < |a| && a[k] == b[i];
      var l :| 0 <= l < |a| && a[l] == b[j];
      if k == l {
        CountOnce(a, k);
        CountTwice(b, i, j);
        assert false;
      }
    }
  }

  /** Sorting by distinct keys forgets the order the entries came in. */
  lemma SortForgetsOrder<V(!new)>(a: seq<Entry<V>>, b: seq<Entry<V>>)
    requires multiset(a) == multiset(b) && DistinctKeys(a)
    ensures SortByKey(a) == SortByKey(b)
  {
    DistinctKeysPermuted(a, b);
    SortByKeySorts(a);
    SortByKeySorts(b);
    SortedUnique(SortByKey(a), SortByKey(b));
  }
}
