/**
 The forbidden-word filter on strings of UTF-16 code units. Words are read code point by code point,
 text code unit by code unit, so a code point outside the basic plane is one two-unit symbol in a
 word and never equals a symbol of the text.
 */
module ForbiddenFilter {
  import opened Basics
  import opened Text
  import opened WordAutomaton

  type Symbol = seq<CodeUnit>

  /** The code points of a string, a surrogate pair being one symbol. */
  function CodePoints(word: Text): (symbols: seq<Symbol>)
    ensures word == [] <==> symbols == []
  {
    if word == [] then []
    else if StartsWithPair(word) then [word[..2]] + CodePoints(word[2..])
    else [word[..1]] + CodePoints(word[1..])
  }

  function Units(text: Text): seq<Symbol> {
    seq(|text|, i requires 0 <= i < |text| => [text[i]])
  }

  function WordSymbols(words: seq<Text>): seq<seq<Symbol>> {
    seq(|words|, i requires 0 <= i < |words| => CodePoints(words[i]))
  }

  function Join(symbols: seq<Symbol>): Text {
    if symbols == [] then [] else symbols[0] + Join(symbols[1..])
  }

  /** The reference result of the filter on strings. */
  ghost function Filtered(text: Text, words: seq<Text>): Text {
    Join(Redact(WordSymbols(words), Units(text), 0, 0))
  }

  lemma {:induction false} JoinUnits(text: Text)
    ensures Join(Units(text)) == text
  {
    if text != [] {
      assert Units(text)[1..] == Units(text[1..]);
      JoinUnits(text[1..]);
      assert text == [text[0]] + text[1..];
    }
  }

  /** Symbols taken from a text are single code units; joined, they are read back one by one. */
  lemma {:induction false} JoinSingles(symbols: seq<Symbol>)
    requires forall s :: s in symbols ==> |s| == 1
    ensures Units(Join(symbols)) == symbols && |Join(symbols)| == |symbols|
  {
    if symbols != [] {
      assert forall s :: s in symbols[1..] ==> s in symbols;
      JoinSingles(symbols[1..]);
      assert |symbols[0]| == 1;
      var j := Join(symbols);
      assert j[0] == symbols[0][0] && [j[0]] == symbols[0];
      assert j[1..] == Join(symbols[1..]);
      assert Units(j) == [[j[0]]] + Units(j[1..]);
      assert symbols == [symbols[0]] + symbols[1..];
    }
  }

  /** Some listed word begins with this code unit on its own. */
  ghost predicate Begins(words: seq<Text>, u: CodeUnit) {
    exists w :: w in words && w != [] && w[0] == u && !StartsWithPair(w)
  }

  lemma BeginsIsStarts(words: seq<Text>, u: CodeUnit)
    ensures Begins(words, u) <==> Starts(WordSymbols(words), [u])
  {
    var ws := WordSymbols(words);
    if Begins(words, u) {
      var w :| w in words && w != [] && w[0] == u && !StartsWithPair(w);
      var i :| 0 <= i < |words| && words[i] == w;
      assert ws[i] in ws && ws[i][0] == [u];
    }
    if Starts(ws, [u]) {
      var s :| s in ws && s != [] && s[0] == [u];
      var i :| 0 <= i < |words| && ws[i] == s;
      var w := words[i];
      assert w in words;
      assert |s[0]| == if StartsWithPair(w) then 2 else 1;
    }
  }

  lemma {:induction false} SubsequenceMembers<T(!new)>(sub: seq<T>, s: seq<T>, c: T)
    requires Subsequence(sub, s) && c in sub
    ensures c in s
    decreases |s|
  {
    if sub[0] == s[0] {
      if c != s[0] { SubsequenceMembers(sub[1..], s[1..], c); }
    } else {
      SubsequenceMembers(sub, s[1..], c);
    }
  }

  lemma FilteredUnits(text: Text, words: seq<Text>)
    ensures Units(Filtered(text, words)) == Redact(WordSymbols(words), Units(text), 0, 0)
  {
    var out := Redact(WordSymbols(words), Units(text), 0, 0);
    RedactKeeps(WordSymbols(words), Units(text), 0, 0);
    assert Units(text)[0..] == Units(text);
    forall s | s in out ensures |s| == 1 {
      SubsequenceMembers(out, Units(text), s);
    }
    JoinSingles(out);
  }

  /** No code unit that begins a listed word survives, whatever the text. */
  lemma NoBeginningSurvives(text: Text, words: seq<Text>, u: CodeUnit)
    requires u in Filtered(text, words)
    ensures !Begins(words, u)
  {
    var out := Filtered(text, words);
    FilteredUnits(text, words);
    RedactKeeps(WordSymbols(words), Units(text), 0, 0);
    var i :| 0 <= i < |out| && out[i] == u;
    assert Units(out)[i] == [u];
    BeginsIsStarts(words, u);
  }

  /** The text is returned as it is exactly when no code unit of it begins a listed word. */
  lemma FilteredUnchanged(text: Text, words: seq<Text>)
    ensures Filtered(text, words) == text <==> forall u :: u in text ==> !Begins(words, u)
  {
    var ws, ts := WordSymbols(words), Units(text);
    UnchangedExactly(ws, ts, 0, 0);
    assert ts[0..] == ts;
    FilteredUnits(text, words);
    JoinUnits(text);
    forall i | 0 <= i < |text| ensures Begins(words, text[i]) <==> Starts(ws, ts[i]) {
      BeginsIsStarts(words, text[i]);
    }
    if Filtered(text, words) == text {
      assert Redact(ws, ts, 0, 0) == ts;
      forall u | u in text ensures !Begins(words, u) {
        var i :| 0 <= i < |text| && text[i] == u;
      }
    }
  }

  /**
   When a listed word can get through: for some text it stands in the output exactly when none of
   its code units begins a listed word on its own. A word that starts with a plain character never
   gets through; one that starts with a surrogate pair does unless another word guards it.
   */
  lemma WordSurvivesExactly(words: seq<Text>, w: Text)
    requires w != []
    ensures (exists text :: Contains(Filtered(text, words), w)) <==> forall u :: u in w ==> !Begins(words, u)
  {
    if exists text :: Contains(Filtered(text, words), w) {
      var text :| Contains(Filtered(text, words), w);
      var out := Filtered(text, words);
      var k :| 0 <= k <= |out| && OccursAt(out, w, k);
      forall u | u in w ensures !Begins(words, u) {
        var i :| 0 <= i < |w| && w[i] == u;
        assert out[k..k + |w|][i] == out[k + i];
        NoBeginningSurvives(text, words, u);
      }
    }
    if forall u :: u in w ==> !Begins(words, u) {
      FilteredUnchanged(w, words);
      assert w[0..0 + |w|] == w;
      assert OccursAt(w, w, 0);
      assert Contains(Filtered(w, words), w);
    }
  }

  /** A listed word that does not start with a surrogate pair is in no output. */
  lemma PlainWordNeverSurvives(text: Text, words: seq<Text>, w: Text)
    requires w in words && w != [] && !StartsWithPair(w)
    ensures !Contains(Filtered(text, words), w)
  {
    assert Begins(words, w[0]);
    WordSurvivesExactly(words, w);
  }

  /** Filtering what was filtered changes nothing. */
  lemma FilteredIdempotent(text: Text, words: seq<Text>)
    ensures Filtered(Filtered(text, words), words) == Filtered(text, words)
  {
    FilteredUnits(text, words);
    RedactIdempotent(WordSymbols(words), Units(text));
  }

  /** A list whose words all start with surrogate pairs filters nothing out of any text. */
  lemma PairWordsUnfiltered(text: Text, words: seq<Text>)
    requires forall w :: w in words ==> StartsWithPair(w)
    ensures Filtered(text, words) == text
  {
    hide Filtered;
    FilteredUnchanged(text, words);
  }

  /** So such a word gets through: one emoji, say U+1F600 as 0xD83D and 0xDE00, alone on the list. */
  lemma PairWordSurvives(high: CodeUnit, low: CodeUnit)
    requires IsHigh(high) && IsLow(low)
    ensures Filtered([high, low], [[high, low]]) == [high, low]
  {
    hide Filtered;
    PairWordsUnfiltered([high, low], [[high, low]]);
  }

  /** A text that holds no listed word and still comes back shorter: "ac" with the word "ab". */
  lemma CleanTextCanChange()
    ensures var text, words: seq<Text> := [97, 99], [[97, 98]];
            && (forall w :: w in words ==> !Contains(text, w))
            && Filtered(text, words) != text
  {
    var text, words: seq<Text> := [97, 99], [[97, 98]];
    FilteredUnchanged(text, words);
    assert words[0] in words && text[0] in text;
    assert Begins(words, 97);
    forall k | 0 <= k <= |text| ensures !OccursAt(text, [97, 98], k) {
      if k == 0 { assert text[k..k + 2][1] == 99; }
    }
  }

  /** The filter: build the automaton of the words, then scan the text. */
  method Filter(text: Text, words: seq<Text>) returns (output: Text)
    ensures output == Filtered(text, words)
  {
    if |text| == 0 || |words| == 0 {
      output := text;
      forall u | u in text ensures !Begins(words, u) {}
      FilteredUnchanged(text, words);
      return;
    }
    var a := Build(WordSymbols(words));
    var symbols := Scan(WordSymbols(words), Units(text), a);
    output := Join(symbols);
  }
}
