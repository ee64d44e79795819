/** When the evaluator finds a winner among several current policies. */
module ReplacementChain {
  import opened Basics
  import opened Text
  import opened LinkGraph
  import opened ShippingRegistry
  import opened ShippingEvaluator

  ghost predicate DistinctIds(c: seq<Policy>) {
    forall i, j :: 0 <= i < j < |c| ==> c[i].policyId != c[j].policyId
  }

  /** The "replaces" relation between policy ids. */
  ghost function ChainLinks(c: seq<Policy>): map<Text, Text>
    requires DistinctIds(c)
  {
    map p | p in c && Replaced(p).Some? :: p.policyId := Replaced(p).value
  }

  /** Each policy replaces the next one. */
  ghost predicate IsChain(order: seq<Policy>) {
    forall i :: 0 <= i < |order| - 1 ==> Replaced(order[i]) == Some(order[i + 1].policyId)
  }

  ghost predicate LinearChain(c: seq<Policy>, order: seq<Policy>) {
    multiset(order) == multiset(c) && IsChain(order)
  }

  lemma LinkAt(c: seq<Policy>, p: Policy)
    requires DistinctIds(c) && p in c
    ensures p.policyId in ChainLinks(c) <==> Replaced(p).Some?
    ensures Replaced(p).Some? ==> ChainLinks(c)[p.policyId] == Replaced(p).value
  {
    hide Replaced;
    if p.policyId in ChainLinks(c) {
      var q :| q in c && Replaced(q).Some? && q.policyId == p.policyId;
      SameId(c, p, q);
    }
  }

  lemma SameId(c: seq<Policy>, p: Policy, q: Policy)
    requires DistinctIds(c) && p in c && q in c && p.policyId == q.policyId
    ensures p == q
  {}

  /** Along a chain the links lead from one policy to any later one. */
  lemma {:induction false} ChainWalk(c: seq<Policy>, order: seq<Policy>, i: nat, n: nat)
    requires DistinctIds(c) && IsChain(order) && (forall p :: p in order ==> p in c) && i + n < |order|
    ensures Walk(ChainLinks(c), order[i].policyId, n) == Some(order[i + n].policyId)
    decreases n
  {
    hide Replaced;
    if n > 0 {
      LinkAt(c, order[i]);
      ChainWalk(c, order, i + 1, n - 1);
    }
  }

  lemma {:induction false} FilterOne<T(!new)>(p: T -> bool, s: seq<T>, h: T)
    requires Distinct(s) && h in s && forall x :: x in s ==> (p(x) <==> x == h)
    ensures Filter(p, s) == [h]
  {
    if s[0] == h {
      FilterNone(p, s[1..]);
    } else {
      FilterOne(p, s[1..], h);
    }
  }

  lemma {:induction false} FilterNone<T(!new)>(p: T -> bool, s: seq<T>)
    requires forall x :: x in s ==> !p(x)
    ensures Filter(p, s) == []
  {
    if s != [] { FilterNone(p, s[1..]); }
  }

  lemma RootMember(c: seq<Policy>, p: Policy)
    ensures p in Roots(c) <==> p in c && p.policyId !in ReplacedIds(c)
  {
    hide Filter, ReplacedIds;
    var replaced := ReplacedIds(c);
    FilterMembers((q: Policy) => q.policyId !in replaced, c, p);
  }

  lemma ReplacedBy(c: seq<Policy>, id: Text) returns (q: Policy)
    requires id in ReplacedIds(c)
    ensures q in c && Replaced(q) == Some(id)
  {
    hide Replaced;
    q :| q in c && Replaced(q).Some? && Replaced(q).value == id;
  }

  /** With distinct ids and no cycle, the resolution comes down to having a single root. */
  lemma ResolveIsSingleRoot(c: seq<Policy>)
    requires DistinctIds(c) && Acyclic(ChainLinks(c)) && c != []
    ensures ResolveChain(c) == if |Roots(c)| == 1 then Some(Roots(c)[0]) else None
  {
    hide Roots, Replaced, ReplacedIds;
    if |c| == 1 {
      RootMember(c, c[0]);
      if c[0].policyId in ReplacedIds(c) {
        var q := ReplacedBy(c, c[0].policyId);
        LinkAt(c, c[0]);
        SelfLink(ChainLinks(c), c[0].policyId);
      }
      OneRoot(c);
    } else if |Roots(c)| == 1 {
      var h := Roots(c)[0];
      RootMember(c, h);
      forall p | p in c ensures p == h || p.policyId in ReplacedIds(c) {
        RootMember(c, p);
      }
    }
  }

  lemma SelfLink(links: map<Text, Text>, a: Text)
    requires a in links && links[a] == a
    ensures !Acyclic(links)
  {
    assert Walk(links, a, 0) == Some(a);
    assert Walk(links, a, 1) == Some(a);
  }

  lemma OneRoot(c: seq<Policy>)
    requires |c| == 1 && c[0] in Roots(c)
    ensures Roots(c) == [c[0]]
  {
    hide ReplacedIds;
    var replaced := ReplacedIds(c);
    RootMember(c, c[0]);
    FilterOne((p: Policy) => p.policyId !in replaced, c, c[0]);
  }

  /** A linear chain has its head as the only root. */
  lemma ChainHasOneRoot(c: seq<Policy>, order: seq<Policy>)
    requires DistinctIds(c) && Acyclic(ChainLinks(c)) && c != [] && LinearChain(c, order)
    ensures order != [] && Roots(c) == [order[0]]
  {
    hide Replaced, ReplacedIds, Acyclic;
    PermutedMembers(c, order);
    var h := order[0];
    var replaced := ReplacedIds(c);
    forall p | p in c ensures p.policyId !in replaced <==> p == h {
      var i :| 0 <= i < |order| && order[i] == p;
      if p == h {
        if p.policyId in replaced {
          var q := ReplacedBy(c, h.policyId);
          HeadNotReplaced(c, order, q);
        }
      } else {
        InReplaced(c, order[i - 1], p.policyId);
      }
    }
    forall i, j | 0 <= i < j < |c| ensures c[i] != c[j] { assert c[i].policyId != c[j].policyId; }
    FilterOne((p: Policy) => p.policyId !in replaced, c, h);
  }

  lemma InReplaced(c: seq<Policy>, q: Policy, id: Text)
    requires q in c && Replaced(q) == Some(id)
    ensures id in ReplacedIds(c)
  {}

  lemma HeadNotReplaced(c: seq<Policy>, order: seq<Policy>, q: Policy)
    requires DistinctIds(c) && order != [] && IsChain(order) && (forall p :: p in order <==> p in c)
    requires q in c && Replaced(q) == Some(order[0].policyId)
    ensures !Acyclic(ChainLinks(c))
  {
    hide Replaced;
    var links := ChainLinks(c);
    var j :| 0 <= j < |order| && order[j] == q;
    ChainWalk(c, order, 0, j);
    LinkAt(c, q);
    WalkAdd(links, order[0].policyId, j, 1);
    assert Walk(links, order[0].policyId, 0) == Some(order[0].policyId);
    assert Walk(links, q.policyId, 1) == Some(order[0].policyId);
  }

  lemma LongerChain(c: seq<Policy>, order: seq<Policy>, p: Policy)
    requires DistinctIds(c) && Acyclic(ChainLinks(c)) && p in c
    requires order != [] && IsChain(order) && Replaced(order[|order| - 1]) == Some(p.policyId)
    requires forall q :: q in order ==> q in c
    ensures IsChain(order + [p]) && (forall q :: q in order + [p] ==> q in c) && |order| <= |ChainLinks(c)|
  {
    hide Replaced, Acyclic;
    var longer := order + [p];
    ChainWalk(c, longer, 0, |order|);
    WalkEnds(ChainLinks(c), longer[0].policyId, |order|);
  }

  /** Follow the chain from `order` to its end. */
  lemma {:induction false} FollowChain(c: seq<Policy>, order: seq<Policy>) returns (full: seq<Policy>)
    requires DistinctIds(c) && Acyclic(ChainLinks(c))
    requires order != [] && IsChain(order) && forall p :: p in order ==> p in c
    ensures order <= full && IsChain(full) && forall p :: p in full ==> p in c
    ensures forall p :: p in c ==> Replaced(full[|full| - 1]) != Some(p.policyId)
    decreases |ChainLinks(c)| + 1 - |order|
  {
    hide Replaced, Acyclic, IsChain, DistinctIds, ChainLinks;
    var last := order[|order| - 1];
    if exists p :: p in c && Replaced(last) == Some(p.policyId) {
      var p :| p in c && Replaced(last) == Some(p.policyId);
      LongerChain(c, order, p);
      full := FollowChain(c, order + [p]);
    } else {
      full := order;
    }
  }

  lemma ChainDistinct(c: seq<Policy>, order: seq<Policy>)
    requires DistinctIds(c) && Acyclic(ChainLinks(c)) && IsChain(order) && forall p :: p in order ==> p in c
    ensures Distinct(order)
  {
    hide Replaced;
    forall i, j | 0 <= i < j < |order| ensures order[i] != order[j] {
      ChainWalk(c, order, i, j - i);
    }
  }

  /** With a single root, the chain from it takes in every candidate. */
  lemma ChainCovers(c: seq<Policy>, full: seq<Policy>)
    requires DistinctIds(c) && Acyclic(ChainLinks(c)) && |Roots(c)| == 1
    requires full != [] && full[0] == Roots(c)[0] && IsChain(full) && forall p :: p in full ==> p in c
    requires forall p :: p in c ==> Replaced(full[|full| - 1]) != Some(p.policyId)
    ensures forall p :: p in c ==> p in full
  {
    hide Replaced, Acyclic, Roots, ReplacedIds;
    var missing := set p | p in c && p !in full :: p.policyId;
    if missing != {} {
      var x := UnlinkedMember(ChainLinks(c), missing);
      var p :| p in c && p !in full && p.policyId == x;
      RootMember(c, p);
      var q := ReplacedBy(c, x);
      LinkAt(c, q);
      assert q !in full ==> q.policyId in missing;
      var j :| 0 <= j < |full| && full[j] == q;
      assert full[j + 1] in full;
      SameId(c, p, full[j + 1]);
      assert false;
    }
    forall p | p in c ensures p in full {
      assert p !in full ==> p.policyId in missing;
    }
  }

  /**
   Among current policies with distinct ids and no cycle of replacements, a winner is found exactly
   when they form one linear chain, and the winner is the head of the chain.
   */
  lemma WinnerExactly(c: seq<Policy>)
    requires DistinctIds(c) && Acyclic(ChainLinks(c)) && c != []
    ensures ResolveChain(c).Some? <==> exists order :: LinearChain(c, order)
    ensures forall order :: LinearChain(c, order) ==> order != [] && ResolveChain(c) == Some(order[0])
  {
    hide Replaced, Acyclic, ResolveChain, Roots;
    ResolveIsSingleRoot(c);
    forall order | LinearChain(c, order) ensures order != [] && ResolveChain(c) == Some(order[0]) {
      ChainHasOneRoot(c, order);
    }
    if |Roots(c)| == 1 {
      var h := Roots(c)[0];
      RootMember(c, h);
      var full := FollowChain(c, [h]);
      ChainCovers(c, full);
      ChainDistinct(c, full);
      forall i, j | 0 <= i < j < |c| ensures c[i] != c[j] { assert c[i].policyId != c[j].policyId; }
      DistinctPermutation(full, c);
      assert LinearChain(c, full);
    }
  }

  // ---------------------------------------------------------------- the winner in any list

  /** `p` stands alone, or it is the only current policy that no current policy replaces. */
  ghost predicate SoleHead(current: seq<Policy>, p: Policy) {
    current == [p] || (|current| > 1 && Roots(current) == [p])
  }

  /** Whatever the list, the winner is its only policy or the only one that none replaces. */
  lemma ResolveIsSoleHead(current: seq<Policy>, p: Policy)
    ensures ResolveChain(current) == Some(p) <==> SoleHead(current, p)
  {
    hide Replaced, ReplacedIds, Filter;
    if |current| > 1 && |Roots(current)| == 1 {
      var replaced := ReplacedIds(current);
      forall q ensures q in Roots(current) <==> q in current && q.policyId !in replaced {
        FilterMembers((x: Policy) => x.policyId !in replaced, current, q);
      }
      assert Roots(current)[0] in Roots(current);
      forall q | q in current ensures q == Roots(current)[0] || q.policyId in replaced {}
    } else if current == [] {
      NoRoots();
    }
  }

  lemma NoRoots()
    ensures Roots([]) == []
  {}

  /** Every other candidate is further down the chain from `h`, or on a cycle of replacements, or below one. */
  ghost predicate HeadsAll(c: seq<Policy>, h: Policy)
    requires DistinctIds(c)
  {
    && h in c && h.policyId !in ReplacedIds(c)
    && forall q :: q in c && q != h ==>
         Reaches(ChainLinks(c), h.policyId, q.policyId) || BelowCycle(ChainLinks(c), q.policyId)
  }

  /** Two candidates or more with distinct ids, cycles or not: what the winner is the head of. */
  lemma WinnerMeaning(c: seq<Policy>, h: Policy)
    requires DistinctIds(c) && |c| > 1
    ensures ResolveChain(c) == Some(h) <==> HeadsAll(c, h)
  {
    ResolveIsSoleHead(c, h);
    hide ResolveChain, Roots, ReplacedIds, Replaced, Reaches, BelowCycle, DistinctIds, ChainLinks;
    if Roots(c) == [h] {
      RootMember(c, h);
      forall q | q in c && q != h
        ensures Reaches(ChainLinks(c), h.policyId, q.policyId) || BelowCycle(ChainLinks(c), q.policyId)
      {
        AboveCandidate(c, h, q);
      }
    }
    if HeadsAll(c, h) {
      forall q | q in c ensures q.policyId !in ReplacedIds(c) <==> q == h {
        if q != h { ReachedIsReplaced(c, h, q); }
      }
      OnlyRoot(c, h);
    }
  }

  lemma OnlyRoot(c: seq<Policy>, h: Policy)
    requires DistinctIds(c) && h in c && forall q :: q in c ==> (q.policyId !in ReplacedIds(c) <==> q == h)
    ensures Roots(c) == [h]
  {
    hide ReplacedIds;
    var replaced := ReplacedIds(c);
    forall i, j | 0 <= i < j < |c| ensures c[i] != c[j] { assert c[i].policyId != c[j].policyId; }
    FilterOne((p: Policy) => p.policyId !in replaced, c, h);
  }

  /** Up the replacements from any candidate there is the only root, or a cycle. */
  lemma AboveCandidate(c: seq<Policy>, h: Policy, q: Policy)
    requires DistinctIds(c) && Roots(c) == [h] && q in c
    ensures Reaches(ChainLinks(c), h.policyId, q.policyId) || BelowCycle(ChainLinks(c), q.policyId)
  {
    hide Replaced, Roots, ReplacedIds, Reaches, OnCycle;
    var links := ChainLinks(c);
    var ids := set p | p in c :: p.policyId;
    var x := RootOrCycle(links, ids, q.policyId);
    if !OnCycle(links, x) {
      var p :| p in c && p.policyId == x;
      RootMember(c, p);
      if p.policyId in ReplacedIds(c) {
        var r := ReplacedBy(c, x);
        LinkAt(c, r);
      }
    }
  }

  /** A candidate reached from another one, or from a cycle, is replaced. */
  lemma ReachedIsReplaced(c: seq<Policy>, h: Policy, q: Policy)
    requires DistinctIds(c) && h in c && q in c && q != h
    requires Reaches(ChainLinks(c), h.policyId, q.policyId) || BelowCycle(ChainLinks(c), q.policyId)
    ensures q.policyId in ReplacedIds(c)
  {
    hide Replaced, ReplacedIds;
    var links := ChainLinks(c);
    var id: Text;
    if Reaches(links, h.policyId, q.policyId) {
      var n: nat :| Walk(links, h.policyId, n) == Some(q.policyId);
      if n == 0 { SameId(c, h, q); }
      id := StepBefore(links, h.policyId, n, q.policyId);
    } else {
      var x :| OnCycle(links, x) && Reaches(links, x, q.policyId);
      var n: nat :| Walk(links, x, n) == Some(q.policyId);
      var m: nat :| 0 < m && Walk(links, x, m) == Some(x);
      WalkAdd(links, x, m, n);
      id := StepBefore(links, x, m + n, q.policyId);
    }
    var p :| p in c && Replaced(p).Some? && p.policyId == id;
    LinkAt(c, p);
    InReplaced(c, p, q.policyId);
  }

  /** One policy alone beside two that replace each other: it wins, though the three form no chain. */
  lemma CycleCanBeIgnored(p: Policy)
    ensures var a := p.(policyId := [97], replacing := None);
            var b := p.(policyId := [98], replacing := Some([99]));
            var c := p.(policyId := [99], replacing := Some([98]));
            && ResolveChain([a, b, c]) == Some(a)
            && !exists order :: LinearChain([a, b, c], order)
  {
    var a := p.(policyId := [97], replacing := None);
    var b := p.(policyId := [98], replacing := Some([99]));
    var c := p.(policyId := [99], replacing := Some([98]));
    var list := [a, b, c];
    assert !IsSpace(b.replacing.value[0]) && !IsSpace(c.replacing.value[0]);
    assert Replaced(a) == None && Replaced(b) == Some([99]) && Replaced(c) == Some([98]);
    hide Replaced;
    assert b in list && c in list && list[0] == a;
    assert ReplacedIds(list) == {[98], [99]};
    OnlyRoot(list, a);
    ResolveIsSoleHead(list, a);
    forall order ensures !LinearChain(list, order) {
      if multiset(order) == multiset(list) { NoChainAround(list, order, a); }
    }
  }

  /** In a chain of several, every policy replaces one or is replaced by one. */
  lemma NoChainAround(list: seq<Policy>, order: seq<Policy>, a: Policy)
    requires multiset(order) == multiset(list) && |list| > 1 && a in list
    requires Replaced(a) == None && a.policyId !in ReplacedIds(list)
    ensures !IsChain(order)
  {
    hide Replaced;
    PermutedMembers(list, order);
    assert |order| == |multiset(order)| == |multiset(list)| == |list|;
    var i :| 0 <= i < |order| && order[i] == a;
    if i == |order| - 1 {
      if Replaced(order[i - 1]) == Some(a.policyId) { InReplaced(list, order[i - 1], a.policyId); }
      assert Replaced(order[i - 1]) != Some(order[i - 1 + 1].policyId);
    } else {
      assert Replaced(order[i]) != Some(order[i + 1].policyId);
    }
  }
}
