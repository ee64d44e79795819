/**
 The bounded message deduplicator. It stores keys with the number of their latest recording and evicts
 the smallest number when it grows too large; the reference is the plain history of recorded keys.
 */
module Deduplicator {
  import opened Basics

  type Key = string

  // ---------------------------------------------------------------- the reference

  function Without(s: seq<Key>, k: Key): seq<Key> {
    if s == [] then [] else (if s[0] == k then [] else [s[0]]) + Without(s[1..], k)
  }

  /** The distinct keys of a history, the most recently recorded first. */
  function RecentKeys(history: seq<Key>): seq<Key> {
    if history == [] then []
    else
      var last := history[|history| - 1];
      [last] + Without(RecentKeys(history[..|history| - 1]), last)
  }

  function Top(s: seq<Key>, n: nat): seq<Key> {
    if |s| <= n then s else s[..n]
  }

  /** The `n` most recently recorded distinct keys. */
  function Kept(history: seq<Key>, n: nat): seq<Key> {
    Top(RecentKeys(history), n)
  }

  /** The place of the latest recording of `k`, or -1. */
  function LastIndex(history: seq<Key>, k: Key): int {
    if history == [] then -1
    else if history[|history| - 1] == k then |history| - 1
    else LastIndex(history[..|history| - 1], k)
  }

  lemma {:induction false} WithoutMeaning(s: seq<Key>, k: Key)
    requires Distinct(s)
    ensures Distinct(Without(s, k))
    ensures forall x :: x in Without(s, k) <==> x in s && x != k
    ensures k !in s ==> Without(s, k) == s
  {
    if s != [] {
      WithoutMeaning(s[1..], k);
      assert s == [s[0]] + s[1..];
      var rest := Without(s[1..], k);
      assert s[0] !in rest;
    }
  }

  /** Taking out an element of a list without repetition leaves what is before and after it. */
  lemma {:induction false} WithoutAt(s: seq<Key>, p: nat)
    requires Distinct(s) && p < |s|
    ensures Without(s, s[p]) == s[..p] + s[p + 1..]
  {
    assert s == [s[0]] + s[1..];
    if p == 0 {
      WithoutMeaning(s[1..], s[0]);
      assert s[0] !in s[1..];
      assert s[..0] + s[1..] == s[1..];
    } else {
      WithoutAt(s[1..], p - 1);
      assert s[1..][p - 1] == s[p];
      assert [s[0]] + (s[1..][..p - 1] + s[1..][p..]) == s[..p] + s[p + 1..];
    }
  }

  ghost predicate Descending(s: seq<Key>, history: seq<Key>) {
    forall i, j :: 0 <= i < j < |s| ==> LastIndex(history, s[i]) > LastIndex(history, s[j])
  }

  lemma {:induction false} LastIndexRange(history: seq<Key>, k: Key)
    ensures -1 <= LastIndex(history, k) < |history|
    ensures LastIndex(history, k) >= 0 <==> k in history
  {
    if history != [] {
      var n := |history| - 1;
      LastIndexRange(history[..n], k);
      assert history == history[..n] + [history[n]];
    }
  }

  /** The recent keys are the keys of the history, each once, latest recording first. */
  lemma {:induction false} RecentMeaning(history: seq<Key>)
    ensures Distinct(RecentKeys(history)) && Descending(RecentKeys(history), history)
    ensures forall k :: k in RecentKeys(history) <==> k in history
  {
    if history != [] {
      var n := |history| - 1;
      var before, last := history[..n], history[n];
      RecentMeaning(before);
      var recent := RecentKeys(before);
      WithoutMeaning(recent, last);
      assert history == before + [last];
      forall k ensures LastIndex(history, k) == if k == last then n else LastIndex(before, k) {}
      WithoutDescends(recent, last, before);
      forall k ensures LastIndex(before, k) < n { LastIndexRange(before, k); }
    }
  }

  lemma {:induction false} WithoutDescends(s: seq<Key>, k: Key, history: seq<Key>)
    requires Distinct(s) && Descending(s, history)
    ensures Descending(Without(s, k), history)
  {
    if k in s {
      var p :| 0 <= p < |s| && s[p] == k;
      WithoutAt(s, p);
    } else {
      WithoutMeaning(s, k);
    }
  }

  // ---------------------------------------------------------------- the stored map

  /** `seen` holds the kept keys, each with the place of its latest recording. */
  ghost predicate Represents(seen: map<Key, nat>, history: seq<Key>, n: nat) {
    && (forall k :: k in seen <==> k in Kept(history, n))
    && forall k :: k in seen ==> seen[k] == LastIndex(history, k)
  }

  /** Moving a kept key to the front keeps the same keys. */
  lemma MoveKept(s: seq<Key>, p: nat, n: nat, x: Key)
    requires p < |Top(s, n)|
    ensures x in Top([s[p]] + (s[..p] + s[p + 1..]), n) <==> x in Top(s, n)
  {
    var m := |Top(s, n)|;
    var moved := [s[p]] + (s[..p] + s[p + 1..]);
    assert Top(moved, n) == [s[p]] + s[..p] + s[p + 1..m];
    assert Top(s, n) == s[..p] + [s[p]] + s[p + 1..m];
  }

  /** Putting another key in front drops the last of a full list. */
  lemma PushKept(s: seq<Key>, k: Key, n: nat, x: Key)
    ensures |Top(s, n)| < n ==> (x in Top([k] + s, n) <==> x in Top(s, n) || x == k)
    ensures |Top(s, n)| == n > 0 ==> (x in Top([k] + s, n) <==> x in Top(s, n)[..n - 1] || x == k)
    ensures n == 0 ==> Top([k] + s, n) == []
  {
    if |Top(s, n)| == n > 0 {
      assert Top([k] + s, n) == [k] + s[..n - 1];
      assert Top(s, n)[..n - 1] == s[..n - 1];
    }
  }

  lemma TopPrefix(s: seq<Key>, p: nat, n: nat)
    requires n <= p < |s|
    ensures Top(s[..p] + s[p + 1..], n) == Top(s, n) && |Top(s, n)| == n
  {
    assert (s[..p] + s[p + 1..])[..n] == s[..n];
  }

  /** After one more recording: the new key first, and the last of a full list dropped. */
  lemma KeptAfter(history: seq<Key>, k: Key, n: nat, x: Key)
    ensures var kept, kept' := Kept(history, n), Kept(history + [k], n);
            && (k in kept ==> (x in kept' <==> x in kept))
            && (k !in kept && |kept| < n ==> (x in kept' <==> x in kept || x == k))
            && (k !in kept && |kept| == n > 0 ==> (x in kept' <==> x in kept[..n - 1] || x == k))
            && (n == 0 ==> kept' == [])
  {
    hide RecentKeys, Without, LastIndex;
    var recent := RecentKeys(history);
    RecentMeaning(history);
    AppendRecent(history, k);
    if k in recent {
      var p :| 0 <= p < |recent| && recent[p] == k;
      WithoutAt(recent, p);
      if p < |Kept(history, n)| {
        assert Kept(history, n)[p] == k;
        MoveKept(recent, p, n, x);
        PushKept(recent, k, n, x);
      } else {
        TopPrefix(recent, p, n);
        PushKept(recent[..p] + recent[p + 1..], k, n, x);
        NotInTop(recent, p, n);
      }
    } else {
      WithoutMeaning(recent, k);
      PushKept(recent, k, n, x);
    }
    if n == 0 { assert Kept(history + [k], 0) == []; }
  }

  lemma NotInTop(s: seq<Key>, p: nat, n: nat)
    requires Distinct(s) && n <= p < |s|
    ensures s[p] !in Top(s, n)
  {}

  lemma AppendRecent(history: seq<Key>, k: Key)
    ensures RecentKeys(history + [k]) == [k] + Without(RecentKeys(history), k)
    ensures forall x :: LastIndex(history + [k], x) == if x == k then |history| else LastIndex(history, x)
  {
    assert (history + [k])[..|history|] == history;
  }

  lemma KeptFacts(history: seq<Key>, n: nat)
    ensures |Kept(history, n)| <= n && Distinct(Kept(history, n)) && Descending(Kept(history, n), history)
  {
    RecentMeaning(history);
  }

  lemma KeySetSize(seen: map<Key, nat>, s: seq<Key>)
    requires Distinct(s) && forall k :: k in seen <==> k in s
    ensures |seen| == |s|
  {
    SetOfDistinct(s);
    assert seen.Keys == set k | k in s;
  }

  lemma {:induction false} SetOfDistinct(s: seq<Key>)
    requires Distinct(s)
    ensures |set k | k in s| == |s|
  {
    if s != [] {
      SetOfDistinct(s[1..]);
      assert (set k | k in s) == (set k | k in s[1..]) + {s[0]};
    }
  }

  /** Recording: with the oldest entry evicted when there are too many, the map still represents the history. */
  lemma RecordStep(seen: map<Key, nat>, history: seq<Key>, k: Key, n: nat, oldest: Key)
    requires Represents(seen, history, n)
    requires var seen1 := seen[k := |history|]; oldest in seen1 && forall x :: x in seen1 ==> seen1[oldest] <= seen1[x]
    ensures var seen1 := seen[k := |history|];
            && (|seen1| <= n ==> Represents(seen1, history + [k], n))
            && (|seen1| > n ==> Represents(seen1 - {oldest}, history + [k], n))
  {
    hide Kept, LastIndex, RecentKeys, Descending;
    AppendRecent(history, k);
    forall x ensures x in Evicted(seen, k, |history|, n, oldest) <==> x in Kept(history + [k], n) {
      RecordKeys(seen, history, k, n, oldest, x);
    }
  }

  ghost function Evicted(seen: map<Key, nat>, k: Key, place: nat, n: nat, oldest: Key): map<Key, nat> {
    var seen1 := seen[k := place];
    if |seen1| <= n then seen1 else seen1 - {oldest}
  }

  lemma RecordKeys(seen: map<Key, nat>, history: seq<Key>, k: Key, n: nat, oldest: Key, x: Key)
    requires Represents(seen, history, n)
    requires var seen1 := seen[k := |history|]; oldest in seen1 && forall y :: y in seen1 ==> seen1[oldest] <= seen1[y]
    ensures x in Evicted(seen, k, |history|, n, oldest) <==> x in Kept(history + [k], n)
  {
    hide Kept, LastIndex, RecentKeys, Descending;
    var kept := Kept(history, n);
    KeptFacts(history, n);
    KeySetSize(seen, kept);
    KeptAfter(history, k, n, x);
    SizeAfter(seen, k, |history|);
    if k !in seen && |kept| == n > 0 {
      OldestIsLast(seen, history, k, n, oldest);
      LastOnly(kept);
    }
  }

  lemma SizeAfter(seen: map<Key, nat>, k: Key, place: nat)
    ensures |seen[k := place]| == |seen| + if k in seen then 0 else 1
    ensures forall x :: x in seen[k := place] <==> x in seen || x == k
  {
    assert seen[k := place].Keys == seen.Keys + {k};
  }

  lemma LastOnly(s: seq<Key>)
    requires Distinct(s) && s != []
    ensures forall x :: x in s[..|s| - 1] <==> x in s && x != s[|s| - 1]
  {
    assert s == s[..|s| - 1] + [s[|s| - 1]];
  }

  lemma OldestIsLast(seen: map<Key, nat>, history: seq<Key>, k: Key, n: nat, oldest: Key)
    requires Represents(seen, history, n) && k !in seen && |Kept(history, n)| == n > 0
    requires var seen1 := seen[k := |history|]; oldest in seen1 && forall x :: x in seen1 ==> seen1[oldest] <= seen1[x]
    ensures oldest == Kept(history, n)[n - 1]
  {
    hide RecentKeys, LastIndex, Kept;
    var kept := Kept(history, n);
    KeptFacts(history, n);
    var last := kept[n - 1];
    var seen1 := seen[k := |history|];
    LastIndexRange(history, last);
    assert last in seen && seen1[last] == LastIndex(history, last) < seen1[k];
    assert forall j :: 0 <= j < n - 1 ==> LastIndex(history, kept[j]) > LastIndex(history, last);
    var i :| 0 <= i < |kept| && kept[i] == oldest;
  }

  // ---------------------------------------------------------------- the object

  class MessageDeduplicator {
    const maxSize: nat
    var seen: map<Key, nat>
    var counter: nat
    ghost var history: seq<Key>

    ghost predicate Valid()
      reads this
    {
      Represents(seen, history, maxSize) && counter == |history|
    }

    constructor (maxSize: nat)
      ensures Valid() && history == [] && this.maxSize == maxSize
    {
      this.maxSize := maxSize;
      seen, counter, history := map[], 0, [];
    }

    /** Records a key; the loop looks for the smallest number when there are too many keys. */
    method Record(key: Key)
      requires Valid()
      modifies this
      ensures Valid() && history == old(history) + [key]
    {
      hide Represents;
      ghost var before := seen;
      seen := seen[key := counter];
      counter := counter + 1;
      if |seen| > maxSize {
        var oldest := Smallest(seen);
        RecordStep(before, history, key, maxSize, oldest);
        seen := seen - {oldest};
      } else {
        ghost var oldest := SmallestExists(seen);
        RecordStep(before, history, key, maxSize, oldest);
      }
      history := history + [key];
    }

    /** True, and the key recorded, exactly when it is not among the most recent keys. */
    method Observe(key: Key) returns (isNew: bool)
      requires Valid()
      modifies this
      ensures Valid()
      ensures isNew <==> key !in Kept(old(history), maxSize)
      ensures history == if isNew then old(history) + [key] else old(history)
    {
      if key in seen { return false; }
      Record(key);
      return true;
    }
  }

  lemma {:induction false} SmallestExists(m: map<Key, nat>) returns (k: Key)
    requires m != map[]
    ensures k in m && forall x :: x in m ==> m[k] <= m[x]
    decreases |m|
  {
    k :| k in m;
    var rest := m - {k};
    if rest != map[] {
      var l := SmallestExists(rest);
      assert forall x :: x in m ==> x == k || x in rest;
      if m[l] < m[k] { k := l; }
    } else {
      assert forall x :: x in m ==> x == k || x in rest;
    }
  }

  /** The eviction scan. */
  method Smallest(m: map<Key, nat>) returns (k: Key)
    requires |m| > 0
    ensures k in m && forall x :: x in m ==> m[k] <= m[x]
  {
    var todo := m.Keys;
    k :| k in todo;
    todo := todo - {k};
    while todo != {}
      invariant k in m && todo <= m.Keys
      invariant forall x :: x in m && x !in todo ==> m[k] <= m[x]
      decreases todo
    {
      var x :| x in todo;
      if m[x] < m[k] { k := x; }
      todo := todo - {x};
    }
  }
}
