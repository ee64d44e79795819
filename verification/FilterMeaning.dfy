/**
 What the filter returns, said by where listed words end and begin in the text: the positions at
 which it starts afresh, which symbols it keeps between them, and how results compose.
 */
module FilterMeaning {
  import opened Basics
  import opened Text
  import opened WordAutomaton
  import opened ForbiddenFilter

  // ---------------------------------------------------------------- resets

  /** A listed word ends at `e`, all of it read after `r`. */
  ghost predicate WordEnds<T(!new)>(words: seq<seq<T>>, text: seq<T>, r: nat, e: nat) {
    r < e <= |text| && exists w :: w in words && w != [] && IsSuffix(w, text[r..e])
  }

  /** `e` is the first such place. */
  ghost predicate EarliestEnd<T(!new)>(words: seq<seq<T>>, text: seq<T>, r: nat, e: nat) {
    WordEnds(words, text, r, e) && forall k: nat :: k < e ==> !WordEnds(words, text, r, k)
  }

  /** Where reading starts for the `i`-th time, having started at `r`. */
  function Since(r: nat, cuts: seq<nat>, i: nat): nat
    requires i <= |cuts|
  {
    if i == 0 then r else cuts[i - 1]
  }

  /** The resets: each the earliest end of a word after the one before, and no end after the last. */
  ghost predicate Resets<T(!new)>(words: seq<seq<T>>, text: seq<T>, r: nat, cuts: seq<nat>) {
    && (forall i :: 0 <= i < |cuts| ==> EarliestEnd(words, text, Since(r, cuts, i), cuts[i]))
    && (forall e: nat :: !WordEnds(words, text, Since(r, cuts, |cuts|), e))
  }

  lemma FirstEnd<T(!new)>(words: seq<seq<T>>, text: seq<T>, r: nat, e: nat) returns (first: nat)
    requires WordEnds(words, text, r, e)
    ensures EarliestEnd(words, text, r, first)
    decreases e
  {
    if exists k: nat :: k < e && WordEnds(words, text, r, k) {
      var k: nat :| k < e && WordEnds(words, text, r, k);
      first := FirstEnd(words, text, r, k);
    } else {
      first := e;
    }
  }

  /** Every text has its resets. */
  lemma {:induction false} ResetsExist<T(!new)>(words: seq<seq<T>>, text: seq<T>, r: nat) returns (cuts: seq<nat>)
    requires r <= |text|
    ensures Resets(words, text, r, cuts)
    decreases |text| - r
  {
    hide WordEnds;
    if exists e: nat :: WordEnds(words, text, r, e) {
      var e: nat :| WordEnds(words, text, r, e);
      var first := FirstEnd(words, text, r, e);
      EndsAfter(words, text, r, first);
      var rest := ResetsExist(words, text, first);
      cuts := [first] + rest;
      forall i | 0 <= i < |cuts| ensures EarliestEnd(words, text, Since(r, cuts, i), cuts[i]) {
        if i > 0 { assert Since(r, cuts, i) == Since(first, rest, i - 1) && cuts[i] == rest[i - 1]; }
      }
      assert Since(r, cuts, |cuts|) == Since(first, rest, |rest|);
    } else {
      cuts := [];
    }
  }

  lemma EndsAfter<T(!new)>(words: seq<seq<T>>, text: seq<T>, r: nat, e: nat)
    requires WordEnds(words, text, r, e)
    ensures r < e <= |text|
  {}

  // ---------------------------------------------------------------- what is kept

  /** What was read from `k` up to and with symbol `i` begins a listed word. */
  ghost predicate PartAt<T(!new)>(words: seq<seq<T>>, text: seq<T>, k: nat, i: nat)
    requires k <= i < |text|
  {
    exists w :: w in words && text[k..i + 1] <= w
  }

  /** What was read since `r`, up to and with symbol `i`, ends in the beginning of a listed word. */
  ghost predicate MidWord<T(!new)>(words: seq<seq<T>>, text: seq<T>, r: nat, i: nat)
    requires i < |text|
  {
    exists k: nat :: r <= k <= i && PartAt(words, text, k, i)
  }

  /** `r` is the last reset at or before `i`. */
  predicate LastReset(cuts: seq<nat>, i: nat, r: nat) {
    && r <= i && (r == 0 || r in cuts)
    && forall c :: c in cuts ==> c <= r || i < c
  }

  /** Symbol `i` is kept. */
  ghost predicate IsKept<T(!new)>(words: seq<seq<T>>, text: seq<T>, cuts: seq<nat>, i: nat)
    requires i < |text|
  {
    forall r :: LastReset(cuts, i, r) ==> !MidWord(words, text, r, i)
  }

  /** The symbols kept, in order. */
  ghost function Pick<T(!new)>(words: seq<seq<T>>, text: seq<T>, cuts: seq<nat>, i: nat): seq<T>
    requires i <= |text|
    decreases |text| - i
  {
    if i == |text| then []
    else (if IsKept(words, text, cuts, i) then [text[i]] else []) + Pick(words, text, cuts, i + 1)
  }

  lemma MidWordIsPrefix<T(!new)>(words: seq<seq<T>>, text: seq<T>, r: nat, i: nat)
    requires r <= i < |text|
    ensures MidWord(words, text, r, i) <==> EndsInPrefix(words, text[r..i + 1])
  {
    var s := text[r..i + 1];
    if MidWord(words, text, r, i) {
      var k: nat :| r <= k <= i && PartAt(words, text, k, i);
      var t := text[k..i + 1];
      PrefixesMeaning(words, t);
      assert s[|s| - |t|..] == t;
      assert IsSuffix(t, s);
    }
    if EndsInPrefix(words, s) {
      var t :| t in Prefixes(words) && t != [] && IsSuffix(t, s);
      PrefixesMeaning(words, t);
      var k := i + 1 - |t|;
      assert text[k..i + 1] == s[|s| - |t|..] == t;
      assert PartAt(words, text, k, i);
    }
  }

  lemma EndIsWord<T(!new)>(words: seq<seq<T>>, text: seq<T>, r: nat, e: nat)
    requires r < e <= |text|
    ensures WordEnds(words, text, r, e) <==> EndsWithWord(Listed(words), text[r..e])
    ensures WordEnds(words, text, r, e) ==> MidWord(words, text, r, e - 1)
  {
    if WordEnds(words, text, r, e) {
      var w :| w in words && w != [] && IsSuffix(w, text[r..e]);
      assert w in Listed(words);
      var k := e - |w|;
      assert text[k..e - 1 + 1] == w;
      assert PartAt(words, text, k, e - 1);
    }
  }

  lemma SinceBounds<T(!new)>(words: seq<seq<T>>, text: seq<T>, cuts: seq<nat>, n: nat, k: nat)
    requires Resets(words, text, 0, cuts) && n <= k <= |cuts|
    ensures Since(0, cuts, n) <= Since(0, cuts, k)
    ensures n < k ==> Since(0, cuts, n) < Since(0, cuts, k)
    decreases k
  {
    hide WordEnds;
    if n < k {
      SinceBounds(words, text, cuts, n, k - 1);
      assert EarliestEnd(words, text, Since(0, cuts, k - 1), cuts[k - 1]);
      EndsAfter(words, text, Since(0, cuts, k - 1), cuts[k - 1]);
    }
  }

  /** Between the `n`-th reset and the next, the `n`-th is the last one. */
  lemma LastIsSince<T(!new)>(words: seq<seq<T>>, text: seq<T>, cuts: seq<nat>, n: nat, i: nat, r: nat)
    requires Resets(words, text, 0, cuts) && n <= |cuts| && Since(0, cuts, n) <= i && (n < |cuts| ==> i < cuts[n])
    ensures LastReset(cuts, i, r) <==> r == Since(0, cuts, n)
  {
    hide Resets;
    var s := Since(0, cuts, n);
    forall c | c in cuts ensures c <= s || i < c {
      var k :| 0 <= k < |cuts| && cuts[k] == c;
      if k < n { SinceBounds(words, text, cuts, k + 1, n); } else { SinceBounds(words, text, cuts, n + 1, k + 1); }
    }
    if LastReset(cuts, i, r) && r != s {
      if n > 0 { assert s in cuts; }
    }
  }

  lemma {:induction false} PickFrom<T(!new)>(words: seq<seq<T>>, text: seq<T>, cuts: seq<nat>, n: nat, i: nat)
    requires Resets(words, text, 0, cuts) && n <= |cuts| && i <= |text|
    requires Since(0, cuts, n) <= i && (n < |cuts| ==> i < cuts[n])
    ensures Redact(words, text, Since(0, cuts, n), i) == Pick(words, text, cuts, i)
    decreases |text| - i
  {
    hide *;
    var r := Since(0, cuts, n);
    if i == |text| {
      AtEnd(words, text, cuts, r);
    } else {
      KeptExactly(words, text, cuts, n, i);
      RedactStep(words, text, r, i);
      PickStep(words, text, cuts, i);
      NextReset(words, text, cuts, n, i);
      EndIsWord(words, text, r, i + 1);
      if WordEnds(words, text, r, i + 1) {
        PickFrom(words, text, cuts, n + 1, i + 1);
      } else {
        PickFrom(words, text, cuts, n, i + 1);
      }
    }
  }

  lemma AtEnd<T(!new)>(words: seq<seq<T>>, text: seq<T>, cuts: seq<nat>, r: nat)
    requires r <= |text|
    ensures Redact(words, text, r, |text|) == [] && Pick(words, text, cuts, |text|) == []
  {}

  lemma RedactStep<T(!new)>(words: seq<seq<T>>, text: seq<T>, r: nat, i: nat)
    requires r <= i < |text|
    ensures Redact(words, text, r, i) ==
              if WordEnds(words, text, r, i + 1) then Redact(words, text, i + 1, i + 1)
              else (if MidWord(words, text, r, i) then [] else [text[i]]) + Redact(words, text, r, i + 1)
  {
    EndIsWord(words, text, r, i + 1);
    MidWordIsPrefix(words, text, r, i);
    hide WordEnds, MidWord, EndsInPrefix, EndsWithWord, Listed;
  }

  lemma PickStep<T(!new)>(words: seq<seq<T>>, text: seq<T>, cuts: seq<nat>, i: nat)
    requires i < |text|
    ensures Pick(words, text, cuts, i) ==
              (if IsKept(words, text, cuts, i) then [text[i]] else []) + Pick(words, text, cuts, i + 1)
    ensures [] + Pick(words, text, cuts, i + 1) == Pick(words, text, cuts, i + 1)
  {
    hide IsKept;
  }

  lemma KeptExactly<T(!new)>(words: seq<seq<T>>, text: seq<T>, cuts: seq<nat>, n: nat, i: nat)
    requires Resets(words, text, 0, cuts) && n <= |cuts| && i < |text|
    requires Since(0, cuts, n) <= i && (n < |cuts| ==> i < cuts[n])
    ensures IsKept(words, text, cuts, i) <==> !MidWord(words, text, Since(0, cuts, n), i)
  {
    hide MidWord, Resets;
    forall r: nat ensures LastReset(cuts, i, r) <==> r == Since(0, cuts, n) { LastIsSince(words, text, cuts, n, i, r); }
  }

  /** A word that ends with symbol `i` is the next reset, and only that is. */
  lemma NextReset<T(!new)>(words: seq<seq<T>>, text: seq<T>, cuts: seq<nat>, n: nat, i: nat)
    requires Resets(words, text, 0, cuts) && n <= |cuts| && i < |text|
    requires Since(0, cuts, n) <= i && (n < |cuts| ==> i < cuts[n])
    ensures WordEnds(words, text, Since(0, cuts, n), i + 1) <==> n < |cuts| && cuts[n] == i + 1
    ensures n < |cuts| && cuts[n] == i + 1 ==> Since(0, cuts, n + 1) == i + 1
    ensures n < |cuts| && cuts[n] == i + 1 && n + 1 < |cuts| ==> i + 1 < cuts[n + 1]
  {
    hide WordEnds;
    var r := Since(0, cuts, n);
    if n < |cuts| {
      assert EarliestEnd(words, text, r, cuts[n]);
      if n + 1 < |cuts| {
        assert EarliestEnd(words, text, Since(0, cuts, n + 1), cuts[n + 1]);
        EndsAfter(words, text, cuts[n], cuts[n + 1]);
      }
    }
  }

  /**
   The filter's result on any text: between one reset and the next, each the earliest end of a listed
   word, it keeps exactly the symbols with which nothing read since the reset begins a listed word.
   */
  lemma RedactMeaning<T(!new)>(words: seq<seq<T>>, text: seq<T>, cuts: seq<nat>)
    requires Resets(words, text, 0, cuts)
    ensures Redact(words, text, 0, 0) == Pick(words, text, cuts, 0)
  {
    if |cuts| > 0 {
      assert EarliestEnd(words, text, Since(0, cuts, 0), cuts[0]);
    }
    PickFrom(words, text, cuts, 0, 0);
  }

  // ---------------------------------------------------------------- results compose at a reset

  lemma {:induction false} RedactAfter<T(!new)>(words: seq<seq<T>>, u: seq<T>, v: seq<T>, r: nat, i: nat)
    requires r <= i <= |v|
    ensures Redact(words, u + v, |u| + r, |u| + i) == Redact(words, v, r, i)
    decreases |v| - i
  {
    hide EndsWithWord, EndsInPrefix, Listed;
    if i < |v| {
      assert (u + v)[|u| + r..|u| + i + 1] == v[r..i + 1];
      RedactAfter(words, u, v, r, i + 1);
      RedactAfter(words, u, v, i + 1, i + 1);
    }
  }

  lemma {:induction false} RedactUpTo<T(!new)>(words: seq<seq<T>>, u: seq<T>, v: seq<T>, i: nat)
    requires EarliestEnd(words, u, 0, |u|) && i < |u|
    ensures Redact(words, u + v, 0, i) == Redact(words, u, 0, i) + Redact(words, v, 0, 0)
    decreases |u| - i
  {
    hide EndsWithWord, EndsInPrefix, Listed, WordEnds, MidWord;
    EndIsWord(words, u, 0, i + 1);
    assert (u + v)[0..i + 1] == u[0..i + 1];
    if i == |u| - 1 {
      RedactAfter(words, u, v, 0, 0);
      assert Redact(words, u, |u|, |u|) == [];
    } else {
      RedactUpTo(words, u, v, i + 1);
    }
  }

  /** When the first listed word of `u` ends with `u`, what follows is filtered on its own. */
  lemma RedactComposes<T(!new)>(words: seq<seq<T>>, u: seq<T>, v: seq<T>)
    requires EarliestEnd(words, u, 0, |u|)
    ensures Redact(words, u + v, 0, 0) == Redact(words, u, 0, 0) + Redact(words, v, 0, 0)
  {
    EndsAfter(words, u, 0, |u|);
    RedactUpTo(words, u, v, 0);
  }

  // ---------------------------------------------------------------- a word between plain text

  /** Up to the end of `a` all is kept, and of `w` nothing. */
  lemma {:induction false} WordSwallowed<T(!new)>(words: seq<seq<T>>, a: seq<T>, w: seq<T>, i: nat)
    requires w in words && w != [] && EarliestEnd(words, a + w, 0, |a + w|)
    requires (forall c :: c in a ==> !Starts(words, c)) && i <= |a + w|
    ensures Redact(words, a + w, 0, i) == if i <= |a| then a[i..] else []
    decreases |a + w| - i
  {
    hide EndsWithWord, EndsInPrefix, Listed, WordEnds, MidWord, Starts;
    var text := a + w;
    if i < |text| {
      EndIsWord(words, text, 0, i + 1);
      MidWordIsPrefix(words, text, 0, i);
      if i < |a| { NotMidWord(words, a, w, i); } else { InMidWord(words, a, w, i); }
      if i == |text| - 1 {
        assert Redact(words, text, |text|, |text|) == [];
      } else {
        WordSwallowed(words, a, w, i + 1);
        if i < |a| { assert a[i..] == [a[i]] + a[i + 1..]; }
      }
    }
  }

  lemma InMidWord<T(!new)>(words: seq<seq<T>>, a: seq<T>, w: seq<T>, i: nat)
    requires w in words && |a| <= i < |a + w|
    ensures MidWord(words, a + w, 0, i)
  {
    var k := |a|;
    assert (a + w)[k..i + 1] == w[..i + 1 - k];
    assert PartAt(words, a + w, k, i);
  }

  lemma NotMidWord<T(!new)>(words: seq<seq<T>>, a: seq<T>, w: seq<T>, i: nat)
    requires i < |a| && forall c :: c in a ==> !Starts(words, c)
    ensures !MidWord(words, a + w, 0, i)
  {
    var text := a + w;
    forall k: nat | k <= i ensures !PartAt(words, text, k, i) {
      assert text[k] == a[k] && a[k] in a && !Starts(words, a[k]);
      assert text[k..i + 1][0] == a[k];
    }
  }

  /** Inside a word after plain text, a listed word ends only where one ends in the word itself. */
  lemma EndsInWord<T(!new)>(words: seq<seq<T>>, a: seq<T>, w: seq<T>)
    requires w in words && w != [] && EarliestEnd(words, w, 0, |w|) && forall c :: c in a ==> !Starts(words, c)
    ensures EarliestEnd(words, a + w, 0, |a + w|)
  {
    var text := a + w;
    assert IsSuffix(w, text[0..|text|]);
    forall e: nat | e < |text| ensures !WordEnds(words, text, 0, e) {
      if 0 < e {
        forall x | x in words && x != [] ensures !IsSuffix(x, text[0..e]) {
          var k := e - |x|;
          if 0 <= k < |a| {
            assert a[k] in a && x[0] != a[k];
            assert text[0..e][k..][0] == a[k];
          } else if |a| <= k {
            assert !WordEnds(words, w, 0, e - |a|);
            assert !IsSuffix(x, w[0..e - |a|]);
            assert text[0..e][k..] == w[0..e - |a|][k - |a|..];
          }
        }
      }
    }
  }

  /**
   A listed word with no listed word ending earlier in it, between texts without the first symbol of
   any: exactly the word is taken out.
   */
  lemma WordTakenOut<T(!new)>(words: seq<seq<T>>, a: seq<T>, w: seq<T>, b: seq<T>)
    requires w in words && w != [] && EarliestEnd(words, w, 0, |w|)
    requires (forall c :: c in a ==> !Starts(words, c)) && forall c :: c in b ==> !Starts(words, c)
    ensures Redact(words, a + w + b, 0, 0) == a + b
  {
    EndsInWord(words, a, w);
    RedactComposes(words, a + w, b);
    WordSwallowed(words, a, w, 0);
    UnchangedExactly(words, b, 0, 0);
    assert a[0..] == a && b[0..] == b;
  }

  // ---------------------------------------------------------------- on strings

  /** No surrogate pair anywhere. */
  predicate NoPairs(w: Text) {
    forall i :: 0 <= i < |w| - 1 ==> !(IsHigh(w[i]) && IsLow(w[i + 1]))
  }

  lemma {:induction false} PlainCodePoints(w: Text)
    requires NoPairs(w)
    ensures CodePoints(w) == Units(w)
    decreases |w|
  {
    if w != [] {
      PlainCodePoints(w[1..]);
      assert Units(w) == [[w[0]]] + Units(w[1..]);
      assert w[..1] == [w[0]];
    }
  }

  lemma UnitsSlice(text: Text, r: nat, e: nat)
    requires r <= e <= |text|
    ensures Units(text)[r..e] == Units(text[r..e])
  {}

  lemma UnitsInjective(s: Text, t: Text)
    requires Units(s) == Units(t)
    ensures s == t
  {
    assert |s| == |t|;
    forall i | 0 <= i < |s| ensures s[i] == t[i] { assert Units(s)[i] == Units(t)[i]; }
  }

  lemma SymbolsAt(words: seq<Text>, n: nat)
    requires (forall w :: w in words ==> NoPairs(w)) && n < |words|
    ensures WordSymbols(words)[n] == Units(words[n]) && words[n] in words
  {
    PlainCodePoints(words[n]);
  }

  lemma SuffixUnits(w: Text, s: Text)
    ensures IsSuffix(Units(w), Units(s)) <==> IsSuffix(w, s)
  {
    if |w| <= |s| {
      UnitsSlice(s, |s| - |w|, |s|);
      if Units(s[|s| - |w|..]) == Units(w) { UnitsInjective(s[|s| - |w|..], w); }
    }
  }

  lemma PrefixUnits(t: Text, w: Text)
    ensures Units(t) <= Units(w) <==> t <= w
  {
    if |t| <= |w| {
      UnitsSlice(w, 0, |t|);
      assert Units(w)[..|t|] == Units(w)[0..|t|] && w[..|t|] == w[0..|t|];
      if Units(w[0..|t|]) == Units(t) { UnitsInjective(w[0..|t|], t); }
    }
  }

  lemma SymbolsEnd(words: seq<Text>, text: Text, r: nat, e: nat)
    requires (forall w :: w in words ==> NoPairs(w)) && r < e <= |text|
    ensures WordEnds(WordSymbols(words), Units(text), r, e) <==> WordEnds(words, text, r, e)
  {
    hide NoPairs, IsSuffix;
    var ws, s := WordSymbols(words), text[r..e];
    UnitsSlice(text, r, e);
    if WordEnds(ws, Units(text), r, e) {
      var x :| x in ws && x != [] && IsSuffix(x, Units(s));
      var n :| 0 <= n < |ws| && ws[n] == x;
      SymbolsAt(words, n);
      SuffixUnits(words[n], s);
    }
    if WordEnds(words, text, r, e) {
      var w :| w in words && w != [] && IsSuffix(w, s);
      var n :| 0 <= n < |words| && words[n] == w;
      SymbolsAt(words, n);
      SuffixUnits(w, s);
      assert ws[n] in ws && ws[n] != [];
    }
  }

  lemma SymbolsPart(words: seq<Text>, text: Text, k: nat, i: nat)
    requires (forall w :: w in words ==> NoPairs(w)) && k <= i < |text|
    ensures PartAt(WordSymbols(words), Units(text), k, i) <==> PartAt(words, text, k, i)
  {
    hide NoPairs;
    var ws, t := WordSymbols(words), text[k..i + 1];
    UnitsSlice(text, k, i + 1);
    if PartAt(ws, Units(text), k, i) {
      var x :| x in ws && Units(t) <= x;
      var n :| 0 <= n < |ws| && ws[n] == x;
      SymbolsAt(words, n);
      PrefixUnits(t, words[n]);
    }
    if PartAt(words, text, k, i) {
      var w :| w in words && t <= w;
      var n :| 0 <= n < |words| && words[n] == w;
      SymbolsAt(words, n);
      PrefixUnits(t, w);
      assert ws[n] in ws;
    }
  }

  lemma SymbolsMid(words: seq<Text>, text: Text, r: nat, i: nat)
    requires (forall w :: w in words ==> NoPairs(w)) && r <= i < |text|
    ensures MidWord(WordSymbols(words), Units(text), r, i) <==> MidWord(words, text, r, i)
  {
    hide NoPairs, PartAt, WordSymbols;
    forall k: nat | k <= i ensures PartAt(WordSymbols(words), Units(text), k, i) <==> PartAt(words, text, k, i) {
      SymbolsPart(words, text, k, i);
    }
  }

  lemma {:induction false} PlainRedact(words: seq<Text>, text: Text, r: nat, i: nat)
    requires (forall w :: w in words ==> NoPairs(w)) && r <= i <= |text|
    ensures Redact(WordSymbols(words), Units(text), r, i) == Units(Redact(words, text, r, i))
    decreases |text| - i
  {
    if i < |text| {
      var ws := WordSymbols(words);
      SymbolsEnd(words, text, r, i + 1);
      SymbolsMid(words, text, r, i);
      EndIsWord(ws, Units(text), r, i + 1);
      EndIsWord(words, text, r, i + 1);
      MidWordIsPrefix(ws, Units(text), r, i);
      MidWordIsPrefix(words, text, r, i);
      hide EndsWithWord, EndsInPrefix, Listed, WordEnds, MidWord, WordSymbols, NoPairs;
      PlainRedact(words, text, i + 1, i + 1);
      PlainRedact(words, text, r, i + 1);
      var rest := Redact(words, text, r, i + 1);
      assert Units([text[i]] + rest) == [[text[i]]] + Units(rest);
    }
  }

  /** With words free of surrogate pairs, the filter works on code units throughout. */
  lemma PlainFiltered(text: Text, words: seq<Text>)
    requires forall w :: w in words ==> NoPairs(w)
    ensures Filtered(text, words) == Redact(words, text, 0, 0)
  {
    PlainRedact(words, text, 0, 0);
    JoinUnits(Redact(words, text, 0, 0));
  }

  /** Whatever the words, read code point by code point: exactly the code units kept between the resets. */
  lemma FilteredSymbols(text: Text, words: seq<Text>, cuts: seq<nat>)
    requires Resets(WordSymbols(words), Units(text), 0, cuts)
    ensures Units(Filtered(text, words)) == Pick(WordSymbols(words), Units(text), cuts, 0)
  {
    hide Resets, Redact, Pick, Filtered;
    FilteredUnits(text, words);
    RedactMeaning(WordSymbols(words), Units(text), cuts);
  }

  /** The filter on strings: exactly the symbols kept between its resets. */
  lemma FilteredMeaning(text: Text, words: seq<Text>, cuts: seq<nat>)
    requires (forall w :: w in words ==> NoPairs(w)) && Resets(words, text, 0, cuts)
    ensures Filtered(text, words) == Pick(words, text, cuts, 0)
  {
    hide Resets, Redact, Pick, Filtered;
    PlainFiltered(text, words);
    RedactMeaning(words, text, cuts);
  }

  lemma JoinFirst(s: seq<Symbol>)
    requires s != []
    ensures Join(s) == s[0] + Join(s[1..])
  {}

  lemma Associates(x: Text, y: Text, z: Text)
    ensures x + y + z == x + (y + z)
  {}

  lemma {:induction false} JoinConcat(a: seq<Symbol>, b: seq<Symbol>)
    ensures Join(a + b) == Join(a) + Join(b)
    decreases |a|
  {
    if a == [] {
      assert a + b == b;
    } else {
      hide Join;
      var c := a + b;
      assert c[0] == a[0] && c[1..] == a[1..] + b;
      JoinFirst(c);
      JoinFirst(a);
      JoinConcat(a[1..], b);
      Associates(a[0], Join(a[1..]), Join(b));
    }
  }

  /** Whatever the words: past the end of the first listed word the filter starts afresh. */
  lemma FilteredComposes(u: Text, v: Text, words: seq<Text>)
    requires EarliestEnd(WordSymbols(words), Units(u), 0, |u|)
    ensures Filtered(u + v, words) == Filtered(u, words) + Filtered(v, words)
  {
    hide EarliestEnd, Redact, WordSymbols;
    assert Units(u + v) == Units(u) + Units(v) && |Units(u)| == |u|;
    RedactComposes(WordSymbols(words), Units(u), Units(v));
    JoinConcat(Redact(WordSymbols(words), Units(u), 0, 0), Redact(WordSymbols(words), Units(v), 0, 0));
  }

  /** A listed word between texts that hold no beginning of any is taken out, and nothing else. */
  lemma FilteredTakesOut(a: Text, w: Text, b: Text, words: seq<Text>)
    requires (forall x :: x in words ==> NoPairs(x)) && w in words && w != [] && EarliestEnd(words, w, 0, |w|)
    requires (forall u :: u in a ==> !Begins(words, u)) && forall u :: u in b ==> !Begins(words, u)
    ensures Filtered(a + w + b, words) == a + b
  {
    forall u: CodeUnit ensures Begins(words, u) <==> Starts(words, u) { PlainBegins(words, u); }
    hide NoPairs, EarliestEnd, Redact, Filtered, Begins, Starts;
    PlainFiltered(a + w + b, words);
    WordTakenOut(words, a, w, b);
  }

  lemma PlainBegins(words: seq<Text>, u: CodeUnit)
    requires forall w :: w in words ==> NoPairs(w)
    ensures Begins(words, u) <==> Starts(words, u)
  {}

  /** A word alone on the list ends nowhere earlier in itself. */
  lemma AloneOnList(w: Text)
    requires w != []
    ensures EarliestEnd([w], w, 0, |w|)
  {
    assert w in [w] && w[0..|w|] == w && IsSuffix(w, w[0..|w|]);
    forall k: nat | k < |w| ensures !WordEnds([w], w, 0, k) {}
  }

  lemma FreeOfBeginning(a: Text, w: Text)
    requires w != [] && w[0] !in a
    ensures forall u :: u in a ==> !Begins([w], u)
  {}

  /** The example of the source: five characters with the word in the middle lose just the word. */
  lemma SourceExample()
    ensures var a: Text, w: Text, b: Text := [0x52A0, 0x6211], [0x5FAE, 0x4FE1], [0x5427];
            Filtered(a + w + b, [w]) == a + b
  {
    hide Filtered, EarliestEnd, Begins;
    var a: Text, w: Text, b: Text := [0x52A0, 0x6211], [0x5FAE, 0x4FE1], [0x5427];
    AloneOnList(w);
    FreeOfBeginning(a, w);
    FreeOfBeginning(b, w);
    FilteredTakesOut(a, w, b, [w]);
  }
}
