/**
 The multi-pattern automaton of the forbidden-word filter: a trie over the listed words, failure
 links found breadth first, outputs inherited along them, and the scan loop. Nodes are numbers and
 node 0 is the root. Ghost `Names` say which string each node stands for.
 */
module WordAutomaton {
  import opened Basics

  datatype Automaton<T> = Automaton(
    next: seq<map<T, nat>>,
    failure: seq<Option<nat>>,
    output: seq<Option<nat>>)

  // ---------------------------------------------------------------- strings and their suffixes

  ghost function PrefixesUpTo<T(!new)>(word: seq<T>, j: nat): set<seq<T>>
    requires j <= |word|
  {
    if j == 0 then {[]} else PrefixesUpTo(word, j - 1) + {word[..j]}
  }

  /** The prefixes of the listed words, with the empty string: what the trie nodes stand for. */
  ghost function Prefixes<T(!new)>(words: seq<seq<T>>): set<seq<T>> {
    if words == [] then {[]}
    else Prefixes(words[..|words| - 1]) + PrefixesUpTo(words[|words| - 1], |words[|words| - 1]|)
  }

  ghost function Listed<T(!new)>(words: seq<seq<T>>): set<seq<T>> {
    set w | w in words
  }

  ghost function Parent<T(!new)>(s: seq<T>): seq<T>
    requires s != []
  {
    s[..|s| - 1]
  }

  ghost predicate PrefixClosed<T(!new)>(paths: set<seq<T>>) {
    [] in paths && forall s {:trigger Parent(s)} :: s in paths && s != [] ==> Parent(s) in paths
  }

  lemma {:induction false} PrefixesUpToMeaning<T(!new)>(word: seq<T>, j: nat, s: seq<T>)
    requires j <= |word|
    ensures s in PrefixesUpTo(word, j) <==> s <= word && |s| <= j
  {
    if j > 0 {
      PrefixesUpToMeaning(word, j - 1, s);
      if s <= word && |s| == j { assert s == word[..j]; }
    }
  }

  lemma {:induction false} PrefixesMeaning<T(!new)>(words: seq<seq<T>>, s: seq<T>)
    ensures s in Prefixes(words) <==> s == [] || exists w :: w in words && s <= w
  {
    if words != [] {
      var n := |words| - 1;
      PrefixesMeaning(words[..n], s);
      PrefixesUpToMeaning(words[n], |words[n]|, s);
      assert words == words[..n] + [words[n]];
      if s in Prefixes(words[..n]) && s != [] {
        var w :| w in words[..n] && s <= w;
        assert w in words;
      }
      assert words[n] in words;
      forall w | w in words && s <= w ensures s in Prefixes(words) {
        if w != words[n] { assert w in words[..n]; }
      }
    }
  }

  /** The longest suffix of `s` that is one of `paths`. */
  ghost function LongestPathSuffix<T(!new)>(paths: set<seq<T>>, s: seq<T>): (r: seq<T>)
    requires [] in paths
    ensures r in paths && |r| <= |s|
    decreases |s|
  {
    if s in paths then s else LongestPathSuffix(paths, s[1..])
  }

  /** Length of the longest non-empty listed word that `s` ends with. */
  ghost function LongestWordSuffix<T(!new)>(words: set<seq<T>>, s: seq<T>): Option<nat>
    decreases |s|
  {
    if s == [] then None else if s in words then Some(|s|) else LongestWordSuffix(words, s[1..])
  }

  ghost predicate EndsWithWord<T(!new)>(words: set<seq<T>>, s: seq<T>) {
    exists w :: w in words && w != [] && IsSuffix(w, s)
  }

  lemma SuffixOfTail<T(!new)>(w: seq<T>, s: seq<T>)
    requires s != [] && w != s
    ensures IsSuffix(w, s) <==> IsSuffix(w, s[1..])
  {
    if |w| < |s| {
      assert s[1..][|s| - 1 - |w|..] == s[|s| - |w|..];
    } else if |w| == |s| {
      assert s[0..] == s;
    }
  }

  /** The longest path suffix is a suffix, and no longer suffix is a path. */
  lemma {:induction false} LongestPathSuffixMeaning<T(!new)>(paths: set<seq<T>>, s: seq<T>)
    requires [] in paths
    ensures IsSuffix(LongestPathSuffix(paths, s), s)
    ensures forall t :: t in paths && IsSuffix(t, s) ==> |t| <= |LongestPathSuffix(paths, s)|
    decreases |s|
  {
    if s !in paths {
      LongestPathSuffixMeaning(paths, s[1..]);
      SuffixOfTail(LongestPathSuffix(paths, s), s);
      forall t | t in paths && IsSuffix(t, s) ensures |t| <= |LongestPathSuffix(paths, s)| {
        SuffixOfTail(t, s);
      }
    } else {
      assert s[0..] == s;
    }
  }

  /** The longest word suffix is there exactly when the string ends with a listed word. */
  lemma {:induction false} LongestWordSuffixMeaning<T(!new)>(words: set<seq<T>>, s: seq<T>)
    ensures LongestWordSuffix(words, s).Some? <==> EndsWithWord(words, s)
    ensures LongestWordSuffix(words, s).Some? ==>
              var n := LongestWordSuffix(words, s).value;
              && 0 < n <= |s| && s[|s| - n..] in words
              && forall w :: w in words && IsSuffix(w, s) ==> |w| <= n
    decreases |s|
  {
    if s == [] {
    } else if s in words {
      assert s[|s| - |s|..] == s;
    } else {
      LongestWordSuffixMeaning(words, s[1..]);
      forall w | w in words ensures IsSuffix(w, s) <==> IsSuffix(w, s[1..]) {
        SuffixOfTail(w, s);
      }
      if LongestWordSuffix(words, s).Some? {
        var n := LongestWordSuffix(words, s).value;
        assert s[1..][|s| - 1 - n..] == s[|s| - n..];
      }
    }
  }

  /** Reading a symbol only needs the longest path suffix of what was read before. */
  lemma {:induction false} ReadSymbol<T(!new)>(paths: set<seq<T>>, s: seq<T>, c: T)
    requires PrefixClosed(paths)
    ensures LongestPathSuffix(paths, LongestPathSuffix(paths, s) + [c]) == LongestPathSuffix(paths, s + [c])
    decreases |s|
  {
    if s !in paths {
      assert Parent(s + [c]) == s;
      assert (s + [c])[1..] == s[1..] + [c];
      ReadSymbol(paths, s[1..], c);
    }
  }

  /** Only the longest path suffix matters for the words a string ends with. */
  lemma {:induction false} WordSuffixOfPathSuffix<T(!new)>(words: set<seq<T>>, paths: set<seq<T>>, s: seq<T>)
    requires [] in paths && words <= paths
    ensures LongestWordSuffix(words, LongestPathSuffix(paths, s)) == LongestWordSuffix(words, s)
    decreases |s|
  {
    if s !in paths {
      WordSuffixOfPathSuffix(words, paths, s[1..]);
    }
  }

  // ---------------------------------------------------------------- the trie

  /** Node numbers and the strings they stand for. */
  datatype Names<!T(!new, ==)> = Names(path: seq<seq<T>>, at: map<seq<T>, nat>) {
    ghost function Add(s: seq<T>): Names<T> {
      var added: nat := |path|;
      Names(path + [s], at[s := added])
    }
  }

  ghost predicate Named<T(!new)>(names: Names<T>) {
    && 0 < |names.path| && names.path[0] == []
    && (forall i :: 0 <= i < |names.path| ==> names.path[i] in names.at && names.at[names.path[i]] == i)
    && (forall s :: s in names.at ==> names.at[s] < |names.path| && names.path[names.at[s]] == s)
    && PrefixClosed(names.at.Keys)
  }

  /** Each node has an edge exactly to the nodes one symbol longer. */
  ghost predicate Edges<T(!new)>(next: seq<map<T, nat>>, names: Names<T>) {
    && |next| == |names.path|
    && (forall i, c {:trigger c in next[i]} {:trigger names.path[i] + [c]} ::
          0 <= i < |next| ==> (c in next[i] <==> names.path[i] + [c] in names.at))
    && (forall i, c {:trigger next[i][c]} ::
          0 <= i < |next| && c in next[i] ==> next[i][c] == names.at[names.path[i] + [c]])
  }

  ghost predicate TrieFor<T(!new)>(next: seq<map<T, nat>>, names: Names<T>) {
    Named(names) && Edges(next, names)
  }

  lemma TrieSize<T(!new)>(next: seq<map<T, nat>>, names: Names<T>)
    requires TrieFor(next, names)
    ensures |next| == |names.path| > 0 && names.path[0] == [] && [] in names.at
  {}

  lemma ChildName<T(!new)>(next: seq<map<T, nat>>, names: Names<T>, p: nat, c: T)
    requires TrieFor(next, names) && p < |next| && c in next[p]
    ensures 0 < next[p][c] < |next| && names.path[next[p][c]] == names.path[p] + [c]
  {
    assert names.path[p] + [c] in names.at;
  }

  lemma EdgeUnique<T(!new)>(next: seq<map<T, nat>>, names: Names<T>, p: nat, c: T, q: nat, d: T)
    requires TrieFor(next, names) && p < |next| && c in next[p] && q < |next| && d in next[q]
    ensures next[p][c] == next[q][d] ==> p == q && c == d
  {
    ChildName(next, names, p, c);
    ChildName(next, names, q, d);
    if next[p][c] == next[q][d] {
      assert names.path[p] == (names.path[p] + [c])[..|names.path[p]|];
      assert names.path[q] == (names.path[q] + [d])[..|names.path[q]|];
      assert names.at[names.path[p]] == p && names.at[names.path[q]] == q;
    }
  }

  /** Before the failure pass a node has an output exactly when its own string is a listed word. */
  ghost function OwnOutput<T(!new)>(words: set<seq<T>>, s: seq<T>): Option<nat> {
    if s != [] && s in words then Some(|s|) else None
  }

  ghost predicate OwnOutputs<T(!new)>(words: set<seq<T>>, output: seq<Option<nat>>, names: Names<T>) {
    |output| == |names.path| && forall i :: 0 <= i < |output| ==> output[i] == OwnOutput(words, names.path[i])
  }

  /** A fresh node, numbered by the node count, under the edge `c` of `node`. */
  function WithChild<T(==)>(next: seq<map<T, nat>>, node: nat, c: T): seq<map<T, nat>>
    requires node < |next|
  {
    var added: nat := |next|;
    var edges: map<T, nat> := next[node][c := added];
    next[node := edges] + [map[]]
  }

  lemma AddName<T(!new)>(names: Names<T>, p: seq<T>, c: T)
    requires Named(names) && p in names.at && p + [c] !in names.at
    ensures Named(names.Add(p + [c]))
  {
    var s := p + [c];
    var names' := names.Add(s);
    forall t | t in names'.at && t != [] ensures Parent(t) in names'.at {
      if t == s { assert Parent(s) == p; }
    }
    assert names'.at.Keys == names.at.Keys + {s};
  }

  lemma EdgeOfLast<T(!new)>(s: seq<T>, c: T, t: seq<T>, d: T)
    ensures s + [c] == t + [d] <==> s == t && c == d
  {
    assert (s + [c])[..|s|] == s && (t + [d])[..|t|] == t;
    if s + [c] == t + [d] { assert (s + [c])[|s|] == (t + [d])[|t|]; }
  }

  lemma AddEdge<T(!new)>(next: seq<map<T, nat>>, names: Names<T>, node: nat, c: T, i: nat, d: T)
    requires TrieFor(next, names) && node < |next| && c !in next[node] && i <= |next|
    ensures var next', names' := WithChild(next, node, c), names.Add(names.path[node] + [c]);
            && (d in next'[i] <==> names'.path[i] + [d] in names'.at)
            && (d in next'[i] ==> next'[i][d] == names'.at[names'.path[i] + [d]])
  {
    var s := names.path[node] + [c];
    if i < |next| {
      EdgeOfLast(names.path[node], c, names.path[i], d);
      assert names.at[names.path[i]] == i && names.at[names.path[node]] == node;
    } else {
      EdgeOfLast(names.path[node], c, s, d);
      assert Parent(s + [d]) == s;
    }
  }

  lemma AddChild<T(!new)>(next: seq<map<T, nat>>, names: Names<T>, node: nat, c: T)
    requires TrieFor(next, names) && node < |next| && c !in next[node]
    ensures TrieFor(WithChild(next, node, c), names.Add(names.path[node] + [c]))
  {
    AddName(names, names.path[node], c);
    forall i: nat, d | i < |next| + 1
      ensures var next', names' := WithChild(next, node, c), names.Add(names.path[node] + [c]);
            && (d in next'[i] <==> names'.path[i] + [d] in names'.at)
            && (d in next'[i] ==> next'[i][d] == names'.at[names'.path[i] + [d]])
    {
      AddEdge(next, names, node, c, i, d);
    }
  }

  /** The first `j` symbols of `word` are in the trie, ending at `node`. */
  ghost predicate Inserting<T(!new)>(words: set<seq<T>>, word: seq<T>, j: nat, next: seq<map<T, nat>>,
        output: seq<Option<nat>>, names: Names<T>, node: nat)
    requires j <= |word|
  {
    && TrieFor(next, names) && OwnOutputs(words, output, names) && words <= names.at.Keys
    && node < |next| && names.path[node] == word[..j]
  }

  lemma InsertFollow<T(!new)>(words: set<seq<T>>, word: seq<T>, j: nat, next: seq<map<T, nat>>,
        output: seq<Option<nat>>, names: Names<T>, node: nat)
    requires j < |word| && Inserting(words, word, j, next, output, names, node) && word[j] in next[node]
    ensures Inserting(words, word, j + 1, next, output, names, next[node][word[j]])
    ensures word[..j + 1] in names.at
  {
    ChildName(next, names, node, word[j]);
    assert word[..j + 1] == word[..j] + [word[j]];
  }

  lemma InsertAdd<T(!new)>(words: set<seq<T>>, word: seq<T>, j: nat, next: seq<map<T, nat>>, output: seq<Option<nat>>,
        names: Names<T>, node: nat)
    requires j < |word| && Inserting(words, word, j, next, output, names, node) && word[j] !in next[node]
    ensures Inserting(words, word, j + 1, WithChild(next, node, word[j]), output + [None], names.Add(word[..j + 1]),
            |next|)
  {
    var s := word[..j + 1];
    assert s == word[..j] + [word[j]];
    AddChild(next, names, node, word[j]);
    var output', names' := output + [None], names.Add(s);
    forall i | 0 <= i < |output'| ensures output'[i] == OwnOutput(words, names'.path[i]) {
      if i == |output| { assert s !in names.at; }
    }
  }

  lemma InsertDone<T(!new)>(words: set<seq<T>>, word: seq<T>, next: seq<map<T, nat>>, output: seq<Option<nat>>,
        names: Names<T>, node: nat)
    requires word != [] && Inserting(words, word, |word|, next, output, names, node)
    ensures |output| == |next| && OwnOutputs(words + {word}, output[node := Some(|word|)], names)
  {
    assert word[..|word|] == word;
    forall i | 0 <= i < |output| ensures output[node := Some(|word|)][i] == OwnOutput(words + {word}, names.path[i]) {
      assert names.at[names.path[i]] == i && names.at[word] == node;
    }
  }

  /** Adds one word to the trie, creating the missing nodes along it. */
  method Insert<T(!new, ==)>(ghost words: set<seq<T>>, word: seq<T>, next0: seq<map<T, nat>>,
        output0: seq<Option<nat>>, ghost names0: Names<T>)
    returns (next: seq<map<T, nat>>, output: seq<Option<nat>>, ghost names: Names<T>)
    requires TrieFor(next0, names0) && OwnOutputs(words, output0, names0) && words <= names0.at.Keys
    requires word != []
    ensures TrieFor(next, names) && OwnOutputs(words + {word}, output, names)
    ensures names.at.Keys == names0.at.Keys + PrefixesUpTo(word, |word|)
  {
    hide Named, Edges, OwnOutputs;
    TrieSize(next0, names0);
    next, output, names := next0, output0, names0;
    var node: nat, j := 0, 0;
    while j < |word|
      invariant 0 <= j <= |word| && node < |next|
      invariant Inserting(words, word, j, next, output, names, node)
      invariant names.at.Keys == names0.at.Keys + PrefixesUpTo(word, j)
    {
      var c := word[j];
      if c in next[node] {
        InsertFollow(words, word, j, next, output, names, node);
        node := next[node][c];
      } else {
        InsertAdd(words, word, j, next, output, names, node);
        next, output, names, node := WithChild(next, node, c), output + [None], names.Add(word[..j + 1]), |next|;
      }
      j := j + 1;
    }
    InsertDone(words, word, next, output, names, node);
    output := output[node := Some(|word|)];
  }

  // ---------------------------------------------------------------- failure links

  /** Node `i` has the failure link and the inherited output that its string calls for. */
  ghost predicate Linked<T(!new)>(words: set<seq<T>>, names: Names<T>, failure: Option<nat>, output: Option<nat>,
        s: seq<T>)
    requires Named(names) && s != []
  {
    && failure.Some? && failure.value < |names.path|
    && names.path[failure.value] == LongestPathSuffix(names.at.Keys, s[1..])
    && output == LongestWordSuffix(words, s)
  }

  /** The queue as an ordering: `pos` gives each queued node its place. */
  ghost predicate Places(queue: seq<nat>, pos: map<nat, nat>) {
    && (forall k :: 0 <= k < |queue| ==> queue[k] in pos && pos[queue[k]] == k)
    && (forall i :: i in pos ==> pos[i] < |queue| && queue[pos[i]] == i)
  }

  /** The state of the breadth-first pass: queued nodes are linked, the others still untouched. */
  ghost predicate Sweep<T(!new)>(words: set<seq<T>>, names: Names<T>, failure: seq<Option<nat>>,
        output: seq<Option<nat>>, pos: map<nat, nat>)
    requires Named(names)
  {
    && |names.path| == |failure| == |output| && failure[0] == None
    && (forall i {:trigger i in pos} :: i in pos ==>
       0 < i < |output| && names.path[i] != [] && Linked(words, names, failure[i], output[i], names.path[i]))
    && (forall i {:trigger i in pos} :: 0 <= i < |output| && i !in pos ==> output[i] == OwnOutput(words, names.path[i]))
  }

  /**
   The children found so far: those of the root once it is done, of the first `m` queued nodes,
   and of `node` under the labels in `done`.
   */
  ghost predicate Found<T(!new)>(next: seq<map<T, nat>>, pos: map<nat, nat>, rootDone: bool, m: nat, node: nat,
        done: set<T>) {
    forall p: nat, c {:trigger next[p][c]} {:trigger c in next[p]} :: p < |next| && c in next[p] ==>
      (next[p][c] in pos <==> EdgeDone(pos, rootDone, m, node, done, p, c))
  }

  ghost predicate EdgeDone<T(!new)>(pos: map<nat, nat>, rootDone: bool, m: nat, node: nat, done: set<T>, p: nat, c: T) {
    (p == 0 && rootDone) || (p in pos && pos[p] < m) || (p == node && c in done)
  }

  /** Queued nodes come in order of depth and reach at most one level below `depth`. */
  ghost predicate ByDepth<T(!new)>(names: Names<T>, queue: seq<nat>, depth: nat) {
    && (forall k {:trigger Depth(names, queue, k)} :: 0 <= k < |queue| ==> Depth(names, queue, k) <= depth + 1)
    && (forall a, b {:trigger Depth(names, queue, a), Depth(names, queue, b)} ::
          0 <= a < b < |queue| ==> Depth(names, queue, a) <= Depth(names, queue, b))
  }

  ghost function Depth<T(!new)>(names: Names<T>, queue: seq<nat>, k: nat): nat
    requires k < |queue|
  {
    if queue[k] < |names.path| then |names.path[queue[k]]| else 0
  }

  lemma DeeperChild<T(!new)>(names: Names<T>, queue: seq<nat>, depth: nat, child: nat)
    requires ByDepth(names, queue, depth) && child < |names.path| && |names.path[child]| == depth + 1
    ensures ByDepth(names, queue + [child], depth)
  {
    var queue' := queue + [child];
    forall k | 0 <= k < |queue'|
      ensures Depth(names, queue', k) == if k < |queue| then Depth(names, queue, k) else depth + 1 {}
  }

  lemma NextDepth<T(!new)>(names: Names<T>, queue: seq<nat>, m: nat)
    requires m + 1 < |queue| && ByDepth(names, queue, Depth(names, queue, m))
    ensures ByDepth(names, queue, Depth(names, queue, m + 1))
  {
    forall k | 0 <= k < |queue| ensures Depth(names, queue, k) <= Depth(names, queue, m + 1) + 1 {
      assert Depth(names, queue, m) <= Depth(names, queue, m + 1);
    }
  }

  lemma DepthFrom<T(!new)>(names: Names<T>, queue: seq<nat>, depth: nat)
    requires queue != [] && ByDepth(names, queue, depth) && depth <= Depth(names, queue, 0)
    ensures ByDepth(names, queue, Depth(names, queue, 0))
  {}

  lemma ParentOf<T(!new)>(next: seq<map<T, nat>>, names: Names<T>, i: nat) returns (p: nat, c: T)
    requires TrieFor(next, names) && i < |next| && names.path[i] != []
    ensures p < |next| && c in next[p] && next[p][c] == i && names.path[i] == names.path[p] + [c]
  {
    var s := names.path[i];
    p, c := names.at[Parent(s)], s[|s| - 1];
    assert s == Parent(s) + [c];
  }

  /** Breadth first: every node no deeper than the next one to process is already queued. */
  lemma {:induction false} ShallowFound<T(!new)>(next: seq<map<T, nat>>, names: Names<T>, queue: seq<nat>,
        pos: map<nat, nat>, m: nat, done: set<T>, i: nat)
    requires TrieFor(next, names) && Places(queue, pos) && m < |queue| && queue[m] != 0
    requires Found(next, pos, true, m, queue[m], done)
    requires queue[m] < |next| && ByDepth(names, queue, |names.path[queue[m]]|)
    requires i < |next| && 0 < |names.path[i]| <= |names.path[queue[m]]|
    ensures i in pos
    decreases |names.path[i]|
  {
    var p, c := ParentOf(next, names, i);
    if names.path[p] == [] {
      assert names.at[names.path[p]] == p && names.at[names.path[0]] == 0;
    } else {
      ShallowFound(next, names, queue, pos, m, done, p);
      assert Depth(names, queue, m) <= Depth(names, queue, pos[p]) || pos[p] < m;
    }
  }

  /** When the queue is used up, every node but the root has been queued. */
  lemma {:induction false} AllFound<T(!new)>(next: seq<map<T, nat>>, names: Names<T>, queue: seq<nat>,
        pos: map<nat, nat>, i: nat)
    requires TrieFor(next, names) && Places(queue, pos)
    requires Found(next, pos, true, |queue|, 0, {})
    requires i < |next| && names.path[i] != []
    ensures i in pos
    decreases |names.path[i]|
  {
    var p, c := ParentOf(next, names, i);
    if names.path[p] == [] {
      assert names.at[names.path[p]] == p && names.at[names.path[0]] == 0;
    } else {
      AllFound(next, names, queue, pos, p);
    }
  }

  /** One step of the fallback walk keeps the sought suffix. */
  lemma FallBack<T(!new)>(names: Names<T>, s: seq<T>, c: T)
    requires Named(names) && s + [c] !in names.at
    ensures s == [] ==> LongestPathSuffix(names.at.Keys, s + [c]) == []
    ensures s != [] ==> LongestPathSuffix(names.at.Keys, s + [c])
                        == LongestPathSuffix(names.at.Keys, LongestPathSuffix(names.at.Keys, s[1..]) + [c])
  {
    if s == [] {
      assert (s + [c])[1..] == [];
    } else {
      assert (s + [c])[1..] == s[1..] + [c];
      ReadSymbol(names.at.Keys, s[1..], c);
    }
  }

  /** Nodes no deeper than `depth` have their failure links. */
  ghost predicate ShallowLinks<T(!new)>(names: Names<T>, failure: seq<Option<nat>>, depth: nat)
    requires Named(names)
  {
    && |failure| == |names.path|
    && forall i {:trigger failure[i]} :: 0 <= i < |failure| && 0 < |names.path[i]| <= depth ==>
         && failure[i].Some? && failure[i].value < |failure|
         && names.path[failure[i].value] == LongestPathSuffix(names.at.Keys, names.path[i][1..])
  }

  /** The fallback walk: from the failure link of `node` down to the first node with a `c` edge. */
  method FindFailure<T(!new, ==)>(next: seq<map<T, nat>>, failure: seq<Option<nat>>, ghost names: Names<T>, node: nat,
        c: T)
    returns (f: nat)
    requires TrieFor(next, names) && |failure| == |next|
    requires node < |next| && names.path[node] != [] && failure[0] == None
    requires ShallowLinks(names, failure, |names.path[node]|)
    ensures f < |next| && names.path[f] == LongestPathSuffix(names.at.Keys, names.path[node][1..] + [c])
  {
    var fallback: Option<nat> := failure[node];
    ghost var goal := LongestPathSuffix(names.at.Keys, names.path[node][1..] + [c]);
    ReadSymbol(names.at.Keys, names.path[node][1..], c);
    while fallback.Some? && c !in next[fallback.value]
      invariant fallback.Some? ==> fallback.value < |next| && |names.path[fallback.value]| < |names.path[node]|
                                   && LongestPathSuffix(names.at.Keys, names.path[fallback.value] + [c]) == goal
      invariant fallback.None? ==> goal == []
      decreases if fallback.Some? && fallback.value < |next| then 1 + |names.path[fallback.value]| else 0
    {
      ghost var s := names.path[fallback.value];
      FallBack(names, s, c);
      assert s == [] ==> fallback.value == 0 by { assert names.at[s] == fallback.value; }
      fallback := failure[fallback.value];
    }
    if fallback.Some? {
      ChildName(next, names, fallback.value, c);
      f := next[fallback.value][c];
    } else {
      f := 0;
    }
  }

  ghost function Place(pos: map<nat, nat>, child: nat, k: nat): map<nat, nat> {
    pos[child := k]
  }

  /** A node found through a new edge was not queued before. */
  lemma NewChild<T(!new)>(next: seq<map<T, nat>>, names: Names<T>, queue: seq<nat>, pos: map<nat, nat>, rootDone: bool,
        m: nat, node: nat, done: set<T>, c: T)
    requires TrieFor(next, names) && node < |next| && c in next[node] && c !in done
    requires Found(next, pos, rootDone, m, node, done) && Places(queue, pos) && m <= |queue|
    requires !(node == 0 && rootDone) && !(node in pos && pos[node] < m)
    ensures next[node][c] !in pos
    ensures Places(queue + [next[node][c]], Place(pos, next[node][c], |queue|))
    ensures Found(next, Place(pos, next[node][c], |queue|), rootDone, m, node, done + {c})
  {
    var child := next[node][c];
    var pos' := Place(pos, child, |queue|);
    forall p: nat, d | p < |next| && d in next[p]
      ensures next[p][d] in pos' <==> EdgeDone(pos', rootDone, m, node, done + {c}, p, d)
    {
      EdgeUnique(next, names, p, d, node, c);
    }
  }

  /** Linking one more child keeps the state of the pass. */
  lemma LinkOne<T(!new)>(words: set<seq<T>>, names: Names<T>, failure: seq<Option<nat>>, output: seq<Option<nat>>,
        pos: map<nat, nat>, child: nat, f: nat, k: nat)
    requires Named(names) && words <= names.at.Keys && Sweep(words, names, failure, output, pos)
    requires 0 < child < |output| && names.path[child] != [] && child !in pos
    requires f < |output| && names.path[f] == LongestPathSuffix(names.at.Keys, names.path[child][1..])
    requires f == 0 || f in pos
    ensures Sweep(words, names, failure[child := Some(f)], output[child := Inherit(output[child], output[f])],
            Place(pos, child, k))
  {
    var s := names.path[child];
    assert output[f] == LongestWordSuffix(words, names.path[f]);
    WordSuffixOfPathSuffix(words, names.at.Keys, s[1..]);
    assert Linked(words, names, Some(f), Inherit(output[child], output[f]), s);
  }

  /** A child without an output of its own takes the output of its failure link. */
  function Inherit(own: Option<nat>, inherited: Option<nat>): Option<nat> {
    if own.None? && inherited.Some? then inherited else own
  }

  /** Queueing a child found under a new label: every part of the pass state moves on. */
  lemma LinkChild<T(!new)>(words: set<seq<T>>, next: seq<map<T, nat>>, names: Names<T>, failure: seq<Option<nat>>,
        output: seq<Option<nat>>, queue: seq<nat>, pos: map<nat, nat>,
                           rootDone: bool, m: nat, node: nat, done: set<T>, c: T, child: nat, f: nat)
    requires TrieFor(next, names) && words <= names.at.Keys && Sweep(words, names, failure, output, pos)
             && Places(queue, pos)
    requires node < |next| && m <= |queue| && Found(next, pos, rootDone, m, node, done)
    requires !(node == 0 && rootDone) && !(node in pos && pos[node] < m)
    requires ByDepth(names, queue, |names.path[node]|) && c in next[node] && c !in done && child == next[node][c]
    requires f < |next| && (f == 0 || f in pos)
    requires names.path[f] == LongestPathSuffix(names.at.Keys, (names.path[node] + [c])[1..])
    ensures child < |next|
    ensures Sweep(words, names, failure[child := Some(f)], output[child := Inherit(output[child], output[f])],
            Place(pos, child, |queue|))
    ensures Places(queue + [child], Place(pos, child, |queue|))
    ensures Found(next, Place(pos, child, |queue|), rootDone, m, node, done + {c})
    ensures ByDepth(names, queue + [child], |names.path[node]|)
  {
    ChildName(next, names, node, c);
    assert |output| == |next| == |failure|;
    hide Sweep, Places, Found, ByDepth;
    NewChild(next, names, queue, pos, rootDone, m, node, done, c);
    DeeperChild(names, queue, |names.path[node]|, child);
    LinkOne(words, names, failure, output, pos, child, f, |queue|);
  }

  /** The children of the root: their failure link is the root itself. */
  method LinkRoot<T(!new, ==)>(ghost words: set<seq<T>>, next: seq<map<T, nat>>, output: seq<Option<nat>>,
        ghost names: Names<T>)
    returns (failure: seq<Option<nat>>, queue: seq<nat>, ghost pos: map<nat, nat>)
    requires TrieFor(next, names) && words <= names.at.Keys && OwnOutputs(words, output, names)
    ensures Sweep(words, names, failure, output, pos) && Places(queue, pos)
    ensures Found(next, pos, true, 0, 0, {}) && ByDepth(names, queue, 0)
  {
    hide Named, Edges;
    TrieSize(next, names);
    failure := seq(|next|, _ => None);
    queue, pos := [], map[];
    var todo := next[0].Keys;
    ghost var done: set<T> := {};
    while todo != {}
      invariant todo + done == next[0].Keys && todo !! done
      invariant Sweep(words, names, failure, output, pos) && Places(queue, pos)
      invariant Found(next, pos, false, 0, 0, done) && ByDepth(names, queue, 0)
      decreases todo
    {
      var c :| c in todo;
      var child := next[0][c];
      assert (names.path[0] + [c])[1..] == [];
      LinkChild(words, next, names, failure, output, queue, pos, false, 0, 0, done, c, child, 0);
      assert 0 !in pos && output[child := Inherit(output[child], output[0])] == output;
      failure, queue, pos := failure[child := Some(0)], queue + [child], Place(pos, child, |queue|);
      todo, done := todo - {c}, done + {c};
    }
    assert done == next[0].Keys;
  }

  lemma ShallowQueued<T(!new)>(words: set<seq<T>>, next: seq<map<T, nat>>, names: Names<T>, failure: seq<Option<nat>>,
        output: seq<Option<nat>>, queue: seq<nat>, pos: map<nat, nat>, m: nat, done: set<T>)
    requires TrieFor(next, names) && Sweep(words, names, failure, output, pos) && Places(queue, pos)
    requires m < |queue| && queue[m] < |next| && Found(next, pos, true, m, queue[m], done)
    requires ByDepth(names, queue, |names.path[queue[m]]|)
    ensures queue[m] in pos && pos[queue[m]] == m && 0 < queue[m] && names.path[queue[m]] != []
    ensures |failure| == |output| == |next| && failure[0] == None
    ensures ShallowLinks(names, failure, |names.path[queue[m]]|)
    ensures forall i :: 0 < i < |next| && |names.path[i]| <= |names.path[queue[m]]| ==> i in pos
  {
    hide Edges, ByDepth, Found, LongestPathSuffix, LongestWordSuffix, OwnOutput;
    TrieSize(next, names);
    forall i | 0 < i < |next| && |names.path[i]| <= |names.path[queue[m]]| ensures i in pos {
      assert names.at[names.path[i]] == i && names.at[names.path[0]] == 0;
      ShallowFound(next, names, queue, pos, m, done, i);
    }
  }

  /** Processes the children of queued node `queue[m]`. */
  method LinkChildren<T(!new, ==)>(ghost words: set<seq<T>>, next: seq<map<T, nat>>, ghost names: Names<T>,
        failure0: seq<Option<nat>>, output0: seq<Option<nat>>, queue0: seq<nat>, ghost pos0: map<nat, nat>, m: nat)
    returns (failure: seq<Option<nat>>, output: seq<Option<nat>>, queue: seq<nat>, ghost pos: map<nat, nat>)
    requires TrieFor(next, names) && words <= names.at.Keys && Sweep(words, names, failure0, output0, pos0)
             && Places(queue0, pos0)
    requires m < |queue0| && Found(next, pos0, true, m, queue0[m], {}) && queue0[m] < |next|
    requires ByDepth(names, queue0, |names.path[queue0[m]]|)
    ensures Sweep(words, names, failure, output, pos) && Places(queue, pos) && queue0 <= queue
    ensures Found(next, pos, true, m, queue0[m], next[queue0[m]].Keys) && ByDepth(names, queue, |names.path[queue0[m]]|)
  {
    hide Named, Edges, Sweep, Places, Found, ByDepth, ShallowLinks;
    TrieSize(next, names);
    failure, output, queue, pos := failure0, output0, queue0, pos0;
    var node := queue[m];
    var todo := next[node].Keys;
    ghost var done: set<T> := {};
    while todo != {}
      invariant todo + done == next[node].Keys && todo !! done
      invariant queue0 <= queue && queue[m] == node
      invariant Sweep(words, names, failure, output, pos) && Places(queue, pos)
      invariant Found(next, pos, true, m, node, done) && ByDepth(names, queue, |names.path[node]|)
      decreases todo
    {
      var c :| c in todo;
      var child := next[node][c];
      ShallowQueued(words, next, names, failure, output, queue, pos, m, done);
      var f := FindFailure(next, failure, names, node, c);
      assert (names.path[node] + [c])[1..] == names.path[node][1..] + [c];
      LinkChild(words, next, names, failure, output, queue, pos, true, m, node, done, c, child, f);
      failure, output := failure[child := Some(f)], output[child := Inherit(output[child], output[f])];
      queue, pos := queue + [child], Place(pos, child, |queue|);
      todo, done := todo - {c}, done + {c};
    }
    assert done == next[node].Keys;
  }

  /** Every node but the root carries the failure link and the output its string calls for. */
  ghost predicate Built<T(!new)>(words: set<seq<T>>, a: Automaton<T>, names: Names<T>) {
    && TrieFor(a.next, names)
    && |a.failure| == |a.output| == |names.path|
    && a.failure[0] == None && a.output[0] == None
    && forall i {:trigger a.failure[i]} {:trigger a.output[i]} :: 0 < i < |names.path| ==>
         names.path[i] != [] && Linked(words, names, a.failure[i], a.output[i], names.path[i])
  }

  /** Nodes not yet processed when the first `head` of the queue are. */
  ghost function Waiting(n: nat, pos: map<nat, nat>, head: nat): set<nat> {
    set i: nat | 0 <= i < n && !(i in pos && pos[i] < head)
  }

  lemma QueuedRange<T(!new)>(words: set<seq<T>>, names: Names<T>, failure: seq<Option<nat>>, output: seq<Option<nat>>,
        queue: seq<nat>, pos: map<nat, nat>)
    requires Named(names) && Sweep(words, names, failure, output, pos) && Places(queue, pos)
    ensures forall k :: 0 <= k < |queue| ==> queue[k] < |names.path|
  {}

  lemma FoundAt<T(!new)>(next: seq<map<T, nat>>, pos: map<nat, nat>, head: nat, node: nat)
    requires Found(next, pos, true, head, 0, {})
    ensures Found(next, pos, true, head, node, {})
  {}

  lemma NodeDone<T(!new)>(next: seq<map<T, nat>>, before: map<nat, nat>, queue0: seq<nat>, pos: map<nat, nat>,
        queue: seq<nat>, head: nat)
    requires Places(queue0, before) && Places(queue, pos) && head < |queue0| && queue0 <= queue && queue[head] < |next|
    requires Found(next, pos, true, head, queue[head], next[queue[head]].Keys)
    ensures Found(next, pos, true, head + 1, 0, {})
    ensures Waiting(|next|, pos, head + 1) < Waiting(|next|, before, head)
  {
    var node := queue[head];
    assert pos[node] == head && queue0[head] == node;
    forall i | i in before && before[i] < head ensures i in pos && pos[i] < head {
      assert queue[before[i]] == i;
    }
    assert node in Waiting(|next|, before, head) && node !in Waiting(|next|, pos, head + 1);
  }

  lemma AllLinked<T(!new)>(words: set<seq<T>>, next: seq<map<T, nat>>, names: Names<T>, failure: seq<Option<nat>>,
        output: seq<Option<nat>>, queue: seq<nat>, pos: map<nat, nat>)
    requires TrieFor(next, names) && Sweep(words, names, failure, output, pos) && Places(queue, pos)
    requires Found(next, pos, true, |queue|, 0, {})
    ensures Built(words, Automaton(next, failure, output), names)
  {
    forall i | 0 < i < |next| ensures names.path[i] != [] && i in pos {
      assert names.at[names.path[i]] == i && names.at[names.path[0]] == 0;
      AllFound(next, names, queue, pos, i);
    }
    assert 0 !in pos;
  }

  /** The failure pass: a queue of nodes, each giving its children their links. */
  method LinkAll<T(!new, ==)>(ghost words: set<seq<T>>, next: seq<map<T, nat>>, output0: seq<Option<nat>>,
        ghost names: Names<T>)
    returns (a: Automaton<T>)
    requires TrieFor(next, names) && words <= names.at.Keys && OwnOutputs(words, output0, names)
    ensures a.next == next && Built(words, a, names)
  {
    hide Named, Edges, Sweep, Places, Found, ByDepth, OwnOutputs, Built, Waiting;
    TrieSize(next, names);
    var output := output0;
    var failure: seq<Option<nat>>, queue: seq<nat>;
    ghost var pos: map<nat, nat>;
    failure, queue, pos := LinkRoot(words, next, output, names);
    var head: nat := 0;
    QueuedRange(words, names, failure, output, queue, pos);
    if queue != [] { DepthFrom(names, queue, 0); }
    while head < |queue|
      invariant 0 <= head <= |queue|
      invariant Sweep(words, names, failure, output, pos) && Places(queue, pos)
      invariant Found(next, pos, true, head, 0, {})
      invariant head < |queue| ==> queue[head] < |next| && ByDepth(names, queue, |names.path[queue[head]]|)
      decreases Waiting(|next|, pos, head)
    {
      ghost var queue0, pos0 := queue, pos;
      FoundAt(next, pos, head, queue[head]);
      failure, output, queue, pos := LinkChildren(words, next, names, failure, output, queue, pos, head);
      NodeDone(next, pos0, queue0, pos, queue, head);
      QueuedRange(words, names, failure, output, queue, pos);
      if head + 1 < |queue| { NextDepth(names, queue, head); }
      head := head + 1;
    }
    AllLinked(words, next, names, failure, output, queue, pos);
    a := Automaton(next, failure, output);
  }

  lemma EmptyTrie<T(!new)>()
    ensures var names: Names<T> := Names([[]], map[[] := 0]);
            TrieFor([map[]], names) && OwnOutputs({}, [None], names) && names.at.Keys == {[]}
  {
    var names: Names<T> := Names([[]], map[[] := 0]);
    forall c: T ensures [] + [c] !in names.at { assert |[] + [c]| == 1; }
  }

  lemma SkipEmpty<T(!new)>(listed: set<seq<T>>, w: seq<T>, output: seq<Option<nat>>, names: Names<T>)
    requires OwnOutputs(listed, output, names) && w == []
    ensures OwnOutputs(listed + {w}, output, names)
  {}

  lemma MoreListed<T(!new)>(words: seq<seq<T>>, i: nat)
    requires i < |words|
    ensures Listed(words[..i + 1]) == Listed(words[..i]) + {words[i]}
    ensures Prefixes(words[..i + 1]) == Prefixes(words[..i]) + PrefixesUpTo(words[i], |words[i]|)
    ensures words[i] in Prefixes(words[..i + 1])
  {
    assert words[..i + 1][..i] == words[..i];
    PrefixesUpToMeaning(words[i], |words[i]|, words[i]);
  }

  /** The nodes stand for exactly the prefixes of the words, and all are linked. */
  ghost predicate AutomatonOf<T(!new)>(words: seq<seq<T>>, a: Automaton<T>) {
    exists names: Names<T> :: names.at.Keys == Prefixes(words) && Built(Listed(words), a, names)
  }

  lemma NodeNames<T(!new)>(words: seq<seq<T>>, a: Automaton<T>) returns (names: Names<T>)
    requires AutomatonOf(words, a)
    ensures names.at.Keys == Prefixes(words) && Built(Listed(words), a, names)
  {
    names :| names.at.Keys == Prefixes(words) && Built(Listed(words), a, names);
  }

  /** Builds the automaton of a word list; empty words are skipped. */
  method Build<T(!new, ==)>(words: seq<seq<T>>) returns (a: Automaton<T>)
    ensures AutomatonOf(words, a)
  {
    hide Named, Edges, OwnOutputs, Built;
    var next: seq<map<T, nat>>, output: seq<Option<nat>> := [map[]], [None];
    ghost var names: Names<T> := Names([[]], map[[] := 0]);
    EmptyTrie<T>();
    ghost var listed: set<seq<T>> := {};
    var i := 0;
    while i < |words|
      invariant 0 <= i <= |words|
      invariant TrieFor(next, names) && OwnOutputs(listed, output, names)
      invariant names.at.Keys == Prefixes(words[..i]) && listed == Listed(words[..i]) <= names.at.Keys
    {
      MoreListed(words, i);
      if words[i] != [] {
        next, output, names := Insert(listed, words[i], next, output, names);
      } else {
        TrieSize(next, names);
        SkipEmpty(listed, words[i], output, names);
      }
      listed := listed + {words[i]};
      i := i + 1;
    }
    assert words[..|words|] == words;
    a := LinkAll(listed, next, output, names);
  }

  /**
   What `AutomatonOf` amounts to at a node below the root: its failure link leads to the longest proper
   suffix of its string that is a trie path, and it has an output exactly when its string ends with
   a non-empty listed word, the output then being the length of the longest such word.
   */
  lemma BuiltMeaning<T(!new)>(words: seq<seq<T>>, a: Automaton<T>, names: Names<T>, i: nat)
    requires Built(Listed(words), a, names) && names.at.Keys == Prefixes(words) && 0 < i < |names.path|
    ensures var s, f := names.path[i], a.failure[i];
            && s != [] && f.Some? && f.value < |names.path|
            && IsSuffix(names.path[f.value], s[1..])
            && (forall t :: t in Prefixes(words) && IsSuffix(t, s[1..]) ==> |t| <= |names.path[f.value]|)
    ensures a.output[i].Some? <==> EndsWithWord(Listed(words), names.path[i])
    ensures a.output[i].Some? ==>
              forall w :: w in words && IsSuffix(w, names.path[i]) ==> |w| <= a.output[i].value
  {
    var s := names.path[i];
    assert Linked(Listed(words), names, a.failure[i], a.output[i], s);
    PrefixesMeaning(words, []);
    LongestPathSuffixMeaning(Prefixes(words), s[1..]);
    LongestWordSuffixMeaning(Listed(words), s);
  }

  // ---------------------------------------------------------------- the scan

  /**
   What the scan returns, said without the automaton. `text[r..i]` is what was read since the last
   reset. A symbol that completes a listed word resets; a symbol that continues or starts a partial
   match is swallowed; any other symbol is emitted.
   */
  ghost function Redact<T(!new)>(words: seq<seq<T>>, text: seq<T>, r: nat, i: nat): seq<T>
    requires r <= i <= |text|
    decreases |text| - i
  {
    if i == |text| then []
    else if EndsWithWord(Listed(words), text[r..i + 1]) then Redact(words, text, i + 1, i + 1)
    else if EndsInPrefix(words, text[r..i + 1]) then Redact(words, text, r, i + 1)
    else [text[i]] + Redact(words, text, r, i + 1)
  }

  /** A non-empty suffix of `s` begins a listed word. */
  ghost predicate EndsInPrefix<T(!new)>(words: seq<seq<T>>, s: seq<T>) {
    exists t :: t in Prefixes(words) && t != [] && IsSuffix(t, s)
  }

  lemma EndsInPrefixMeaning<T(!new)>(words: seq<seq<T>>, s: seq<T>)
    ensures [] in Prefixes(words)
    ensures EndsInPrefix(words, s) <==> LongestPathSuffix(Prefixes(words), s) != []
  {
    PrefixesMeaning(words, []);
    LongestPathSuffixMeaning(Prefixes(words), s);
  }

  /** `state` stands where the text read since the last reset leads, as far as symbol `i` can tell. */
  ghost predicate Tracks<T(!new)>(words: seq<seq<T>>, text: seq<T>, r: nat, i: nat, a: Automaton<T>, names: Names<T>,
        state: nat)
    requires r <= i <= |text| && Built(Listed(words), a, names) && names.at.Keys == Prefixes(words)
  {
    && state < |names.path|
    && LongestWordSuffix(Listed(words), names.path[state]) == None
    && (i < |text| ==> LongestPathSuffix(Prefixes(words), names.path[state] + [text[i]])
                       == LongestPathSuffix(Prefixes(words), text[r..i + 1]))
  }

  /** After symbol `i` the state is the longest path suffix; it is on track for the next symbol. */
  lemma TrackNext<T(!new)>(words: seq<seq<T>>, text: seq<T>, r: nat, i: nat, a: Automaton<T>, names: Names<T>,
        state: nat)
    requires r <= i <= |text| && Built(Listed(words), a, names) && names.at.Keys == Prefixes(words)
    requires state < |names.path| && names.path[state] == LongestPathSuffix(Prefixes(words), text[r..i])
    requires LongestWordSuffix(Listed(words), names.path[state]) == None
    ensures Tracks(words, text, r, i, a, names, state)
  {
    if i < |text| {
      assert text[r..i + 1] == text[r..i] + [text[i]];
      ReadSymbol(Prefixes(words), text[r..i], text[i]);
    }
  }

  lemma OutputOf<T(!new)>(words: seq<seq<T>>, a: Automaton<T>, names: Names<T>, state: nat)
    requires Built(Listed(words), a, names) && state < |names.path|
    ensures a.output[state] == LongestWordSuffix(Listed(words), names.path[state])
  {}

  lemma ListedInPrefixes<T(!new)>(words: seq<seq<T>>)
    ensures Listed(words) <= Prefixes(words) && [] in Prefixes(words)
  {
    forall w | w in words ensures w in Prefixes(words) { PrefixesMeaning(words, w); }
    PrefixesMeaning(words, []);
  }

  /** The state reached on symbol `i` decides what the reference does with it. */
  lemma Reached<T(!new)>(words: seq<seq<T>>, text: seq<T>, r: nat, i: nat, a: Automaton<T>, names: Names<T>, state: nat)
    requires r <= i < |text| && Built(Listed(words), a, names) && names.at.Keys == Prefixes(words)
    requires state < |names.path| && names.path[state] == LongestPathSuffix(Prefixes(words), text[r..i + 1])
    ensures a.output[state].Some? <==> EndsWithWord(Listed(words), text[r..i + 1])
    ensures state != 0 <==> EndsInPrefix(words, text[r..i + 1])
  {
    ListedInPrefixes(words);
    OutputOf(words, a, names, state);
    WordSuffixOfPathSuffix(Listed(words), Prefixes(words), text[r..i + 1]);
    LongestWordSuffixMeaning(Listed(words), text[r..i + 1]);
    EndsInPrefixMeaning(words, text[r..i + 1]);
    assert names.at[names.path[state]] == state && names.at[names.path[0]] == 0;
  }

  /** A failure transition keeps the track and, as outputs are inherited, meets no output. */
  lemma FailureTransition<T(!new)>(words: seq<seq<T>>, text: seq<T>, r: nat, i: nat, a: Automaton<T>, names: Names<T>,
        state: nat)
    requires r <= i < |text| && Built(Listed(words), a, names) && names.at.Keys == Prefixes(words)
    requires Tracks(words, text, r, i, a, names, state) && state != 0 && text[i] !in a.next[state]
    ensures a.failure[state].Some? && a.failure[state].value < |a.next|
    ensures Tracks(words, text, r, i, a, names, a.failure[state].value)
    ensures a.output[a.failure[state].value] == None
    ensures |names.path[a.failure[state].value]| < |names.path[state]|
  {
    var s := names.path[state];
    assert Linked(Listed(words), names, a.failure[state], a.output[state], s);
    FallBack(names, s, text[i]);
    ListedInPrefixes(words);
    WordSuffixOfPathSuffix(Listed(words), Prefixes(words), s[1..]);
    OutputOf(words, a, names, a.failure[state].value);
  }

  /** Following an edge reads the symbol. */
  lemma EdgeTransition<T(!new)>(words: seq<seq<T>>, text: seq<T>, r: nat, i: nat, a: Automaton<T>, names: Names<T>,
        state: nat)
    requires r <= i < |text| && Built(Listed(words), a, names) && names.at.Keys == Prefixes(words)
    requires Tracks(words, text, r, i, a, names, state) && text[i] in a.next[state]
    ensures 0 < a.next[state][text[i]] < |a.next|
    ensures names.path[a.next[state][text[i]]] == LongestPathSuffix(Prefixes(words), text[r..i + 1])
  {
    ChildName(a.next, names, state, text[i]);
  }

  /** At the root a symbol without an edge leaves the state at the root. */
  lemma RootStays<T(!new)>(words: seq<seq<T>>, text: seq<T>, r: nat, i: nat, a: Automaton<T>, names: Names<T>)
    requires r <= i < |text| && Built(Listed(words), a, names) && names.at.Keys == Prefixes(words)
    requires Tracks(words, text, r, i, a, names, 0) && text[i] !in a.next[0]
    ensures names.path[0] == LongestPathSuffix(Prefixes(words), text[r..i + 1])
  {
    FallBack(names, [], text[i]);
  }

  /** At the root nothing has been read since the reset. */
  lemma RootTracks<T(!new)>(words: seq<seq<T>>, text: seq<T>, i: nat, a: Automaton<T>, names: Names<T>)
    requires i <= |text| && Built(Listed(words), a, names) && names.at.Keys == Prefixes(words)
    ensures Tracks(words, text, i, i, a, names, 0)
  {
    ListedInPrefixes(words);
    assert text[i..i] == [];
    TrackNext(words, text, i, i, a, names, 0);
  }

  /** The scan loop. It ends because unread text, then the depth of the state, goes down. */
  method Scan<T(!new, ==)>(ghost words: seq<seq<T>>, text: seq<T>, a: Automaton<T>) returns (output: seq<T>)
    requires AutomatonOf(words, a)
    ensures output == Redact(words, text, 0, 0)
  {
    hide Named, Edges, LongestPathSuffix, LongestWordSuffix, EndsWithWord, EndsInPrefix, Tracks, AutomatonOf;
    ghost var names := NodeNames(words, a);
    output := [];
    var state: nat, i: nat := 0, 0;
    ghost var r: nat := 0;
    TrieSize(a.next, names);
    RootTracks(words, text, 0, a, names);
    while i < |text|
      invariant r <= i <= |text| && state < |a.next|
      invariant Tracks(words, text, r, i, a, names, state)
      invariant output + Redact(words, text, r, i) == Redact(words, text, 0, 0)
      decreases |text| - i, |names.path[state]|
    {
      ghost var read := true;
      ghost var k := i;
      if text[i] in a.next[state] {
        EdgeTransition(words, text, r, i, a, names, state);
        state := a.next[state][text[i]];
        i := i + 1;
        Reached(words, text, r, k, a, names, state);
      } else if state == 0 {
        RootStays(words, text, r, i, a, names);
        Reached(words, text, r, i, a, names, state);
        output := output + [text[i]];
        i := i + 1;
      } else {
        FailureTransition(words, text, r, i, a, names, state);
        state := a.failure[state].value;
        read := false;
      }
      OutputOf(words, a, names, state);
      if a.output[state].Some? && i > 0 {
        state := 0;
        r := i;
        RootTracks(words, text, i, a, names);
      } else if read {
        TrackNext(words, text, r, i, a, names, state);
      }
    }
  }

  // ---------------------------------------------------------------- what the scan promises

  /** `c` is the first symbol of a listed word. */
  ghost predicate Starts<T(!new)>(words: seq<seq<T>>, c: T) {
    exists w :: w in words && w != [] && w[0] == c
  }

  lemma StartsAsPrefix<T(!new)>(words: seq<seq<T>>, s: seq<T>)
    requires s != [] && Starts(words, s[|s| - 1])
    ensures EndsInPrefix(words, s)
  {
    var c := s[|s| - 1];
    var w :| w in words && w != [] && w[0] == c;
    assert [c] <= w;
    PrefixesMeaning(words, [c]);
    assert IsSuffix([c], s);
  }

  /** The output is made of text symbols in order, and none of them begins a listed word. */
  lemma {:induction false} RedactKeeps<T(!new)>(words: seq<seq<T>>, text: seq<T>, r: nat, i: nat)
    requires r <= i <= |text|
    ensures Subsequence(Redact(words, text, r, i), text[i..])
    ensures forall c :: c in Redact(words, text, r, i) ==> !Starts(words, c)
    decreases |text| - i
  {
    hide EndsWithWord, EndsInPrefix, Starts, Listed, Prefixes;
    if i < |text| {
      var seen := text[r..i + 1];
      var r' := if EndsWithWord(Listed(words), seen) then i + 1 else r;
      RedactKeeps(words, text, r', i + 1);
      assert text[i..][1..] == text[i + 1..];
      SubsequenceOfLonger(Redact(words, text, r', i + 1), text[i], text[i + 1..]);
      if Starts(words, text[i]) { StartsAsPrefix(words, seen); }
      if EndsWithWord(Listed(words), seen) {
      } else if EndsInPrefix(words, seen) {
      } else {
        var rest := Redact(words, text, r, i + 1);
        assert ([text[i]] + rest)[1..] == rest;
      }
    }
  }

  lemma {:induction false} SubsequenceOfLonger<T(!new)>(sub: seq<T>, c: T, s: seq<T>)
    requires Subsequence(sub, s)
    ensures Subsequence(sub, [c] + s)
    decreases |s|, 1
  {
    assert ([c] + s)[1..] == s;
    if sub != [] && sub[0] == c {
      SubsequenceTail(sub, s);
    }
  }

  lemma {:induction false} SubsequenceTail<T(!new)>(sub: seq<T>, s: seq<T>)
    requires sub != [] && Subsequence(sub, s)
    ensures Subsequence(sub[1..], s)
    decreases |s|, 0
  {
    assert s == [s[0]] + s[1..];
    if sub[0] == s[0] {
      SubsequenceOfLonger(sub[1..], s[0], s[1..]);
    } else {
      SubsequenceTail(sub, s[1..]);
      SubsequenceOfLonger(sub[1..], s[0], s[1..]);
    }
  }

  lemma {:induction false} RedactIsNoLonger<T(!new)>(words: seq<seq<T>>, text: seq<T>, r: nat, i: nat)
    requires r <= i <= |text|
    ensures |Redact(words, text, r, i)| <= |text| - i
    decreases |text| - i
  {
    hide EndsWithWord, EndsInPrefix, Listed, Prefixes;
    if i < |text| {
      RedactIsNoLonger(words, text, r, i + 1);
      RedactIsNoLonger(words, text, i + 1, i + 1);
    }
  }

  /**
   The text comes back unchanged exactly when none of its symbols begins a listed word. So a text
   without any forbidden word may still lose symbols: the filter swallows partial matches.
   */
  lemma {:induction false} UnchangedExactly<T(!new)>(words: seq<seq<T>>, text: seq<T>, r: nat, i: nat)
    requires r <= i <= |text|
    requires forall k :: r <= k < i ==> !Starts(words, text[k])
    ensures Redact(words, text, r, i) == text[i..] <==> forall k :: i <= k < |text| ==> !Starts(words, text[k])
    decreases |text| - i
  {
    hide EndsWithWord, EndsInPrefix, Starts, Listed, Prefixes;
    if i < |text| {
      var seen := text[r..i + 1];
      RedactIsNoLonger(words, text, r, i + 1);
      RedactIsNoLonger(words, text, i + 1, i + 1);
      if Starts(words, text[i]) {
        StartsAsPrefix(words, seen);
      } else {
        if EndsWithWord(Listed(words), seen) || EndsInPrefix(words, seen) {
          var k := MatchHasStart(words, seen);
          assert false;
        }
        UnchangedExactly(words, text, r, i + 1);
        assert text[i..] == [text[i]] + text[i + 1..];
        assert ([text[i]] + Redact(words, text, r, i + 1))[1..] == Redact(words, text, r, i + 1);
        assert ([text[i]] + text[i + 1..])[1..] == text[i + 1..];
      }
    }
  }

  /** A string that ends with a word, or with the beginning of one, holds a first symbol. */
  lemma MatchHasStart<T(!new)>(words: seq<seq<T>>, s: seq<T>) returns (k: nat)
    requires EndsWithWord(Listed(words), s) || EndsInPrefix(words, s)
    ensures k < |s| && Starts(words, s[k])
  {
    if EndsWithWord(Listed(words), s) {
      var w :| w in Listed(words) && w != [] && IsSuffix(w, s);
      k := |s| - |w|;
    } else {
      var t :| t in Prefixes(words) && t != [] && IsSuffix(t, s);
      PrefixesMeaning(words, t);
      k := |s| - |t|;
      assert s[k] == t[0];
    }
  }

  /** Removing the removed: a second pass changes nothing. */
  lemma RedactIdempotent<T(!new)>(words: seq<seq<T>>, text: seq<T>)
    ensures var once := Redact(words, text, 0, 0); Redact(words, once, 0, 0) == once
  {
    var once := Redact(words, text, 0, 0);
    RedactKeeps(words, text, 0, 0);
    UnchangedExactly(words, once, 0, 0);
    assert once[0..] == once;
  }
}
