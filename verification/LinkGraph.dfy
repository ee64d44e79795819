/** Pointer graphs where every node has at most one outgoing link: walks, cycles, adding a link. */
module LinkGraph {
  import opened Basics

  /** The node `n` links away from `a`, if there is one. */
  ghost function Walk<K(!new)>(links: map<K, K>, a: K, n: nat): Option<K> {
    if n == 0 then Some(a) else if a in links then Walk(links, links[a], n - 1) else None
  }

  ghost predicate Reaches<K(!new)>(links: map<K, K>, a: K, b: K) {
    exists n: nat :: Walk(links, a, n) == Some(b)
  }

  ghost predicate Acyclic<K(!new)>(links: map<K, K>) {
    forall a, n: nat :: 0 < n ==> Walk(links, a, n) != Some(a)
  }

  lemma {:induction false} WalkAdd<K(!new)>(links: map<K, K>, a: K, m: nat, n: nat)
    ensures Walk(links, a, m).Some? ==> Walk(links, a, m + n) == Walk(links, Walk(links, a, m).value, n)
    ensures Walk(links, a, m).None? ==> Walk(links, a, m + n).None?
  {
    if m > 0 && a in links { WalkAdd(links, links[a], m - 1, n); }
  }

  /** The nodes a walk leaves in its first `n` steps. */
  ghost function Left<K(!new)>(links: map<K, K>, a: K, n: nat): set<K> {
    if n == 0 || a !in links then {} else {a} + Left(links, links[a], n - 1)
  }

  lemma {:induction false} LeftReached<K(!new)>(links: map<K, K>, a: K, n: nat, x: K)
    requires x in Left(links, a, n)
    ensures exists k: nat :: k < n && Walk(links, a, k) == Some(x)
  {
    if x == a {
      assert Walk(links, a, 0) == Some(x);
    } else {
      LeftReached(links, links[a], n - 1, x);
      var k: nat :| k < n - 1 && Walk(links, links[a], k) == Some(x);
      assert Walk(links, a, k + 1) == Some(x);
    }
  }

  lemma BackToStart<K(!new)>(links: map<K, K>, a: K, n: nat)
    requires a in links && a in Left(links, links[a], n)
    ensures !Acyclic(links)
  {
    LeftReached(links, links[a], n, a);
    var k: nat :| k < n && Walk(links, links[a], k) == Some(a);
    assert Walk(links, a, k + 1) == Some(a);
  }

  /** Without cycles a walk leaves a new node at every step. */
  lemma {:induction false} LeftGrows<K(!new)>(links: map<K, K>, a: K, n: nat)
    requires Acyclic(links) && Walk(links, a, n).Some?
    ensures Left(links, a, n) <= links.Keys && |Left(links, a, n)| == n
  {
    if n > 0 {
      LeftGrows(links, links[a], n - 1);
      if a in Left(links, links[a], n - 1) { BackToStart(links, a, n - 1); }
    }
  }

  /** Pigeonhole: without cycles no walk is longer than the number of links. */
  lemma WalkEnds<K(!new)>(links: map<K, K>, a: K, n: nat)
    requires Acyclic(links) && Walk(links, a, n).Some?
    ensures n <= |links|
  {
    LeftGrows(links, a, n);
    SubsetSize(Left(links, a, n), links.Keys);
  }

  /** A walk is not disturbed by a link out of a node it only ends in. */
  lemma {:induction false} WalkSurvives<K(!new)>(links: map<K, K>, from: K, to: K, a: K, n: nat)
    requires from !in links && Walk(links, a, n).Some?
    ensures Walk(links[from := to], a, n) == Walk(links, a, n)
  {
    if n > 0 { WalkSurvives(links, from, to, links[a], n - 1); }
  }

  /** A walk in the larger graph was there before, or comes through the new link's source. */
  lemma {:induction false} OldWalkOrHit<K(!new)>(links: map<K, K>, from: K, to: K, a: K, n: nat)
    requires from !in links && Walk(links[from := to], a, n).Some?
    ensures Walk(links, a, n) == Walk(links[from := to], a, n)
            || exists k: nat :: k <= n && Walk(links, a, k) == Some(from)
  {
    if a == from {
      assert Walk(links, a, 0) == Some(from);
    } else if n > 0 {
      OldWalkOrHit(links, from, to, links[a], n - 1);
      if Walk(links, links[a], n - 1) != Walk(links[from := to], links[a], n - 1) {
        var k: nat :| k <= n - 1 && Walk(links, links[a], k) == Some(from);
        assert Walk(links, a, k + 1) == Some(from);
      }
    }
  }

  /** A cycle that the new link made comes back to its source. */
  lemma CycleThroughSource<K(!new)>(links: map<K, K>, from: K, to: K, a: K, n: nat)
    requires from !in links && Acyclic(links) && 0 < n && Walk(links[from := to], a, n) == Some(a)
    ensures Reaches(links, to, from)
  {
    var more := links[from := to];
    OldWalkOrHit(links, from, to, a, n);
    var k: nat :| k <= n && Walk(links, a, k) == Some(from);
    WalkSurvives(links, from, to, a, k);
    WalkAdd(more, a, k, n - k);
    WalkAdd(more, from, n - k, k);
    assert Walk(more, from, n) == Some(from);
    OldWalkOrHit(links, from, to, to, n - 1);
  }

  /** A new link keeps the graph free of cycles exactly when its target does not lead back. */
  lemma AddLink<K(!new)>(links: map<K, K>, from: K, to: K)
    requires Acyclic(links) && from !in links
    ensures Acyclic(links[from := to]) <==> !Reaches(links, to, from)
  {
    var more := links[from := to];
    if Reaches(links, to, from) {
      var n: nat :| Walk(links, to, n) == Some(from);
      WalkSurvives(links, from, to, to, n);
      assert Walk(more, from, n + 1) == Some(from);
    } else {
      forall a, n: nat | 0 < n ensures Walk(more, a, n) != Some(a) {
        if Walk(more, a, n) == Some(a) {
          CycleThroughSource(links, from, to, a, n);
          assert false;
        }
      }
    }
  }

  /** Fewer links, fewer walks. */
  lemma {:induction false} WalkWithout<K(!new)>(links: map<K, K>, gone: K, a: K, n: nat)
    requires Walk(links - {gone}, a, n).Some?
    ensures Walk(links, a, n) == Walk(links - {gone}, a, n)
  {
    if n > 0 { WalkWithout(links, gone, links[a], n - 1); }
  }

  /** A link that leads away from a node does not help to reach it. */
  lemma ReachesWithout<K(!new)>(links: map<K, K>, a: K, node: K)
    ensures Reaches(links - {node}, a, node) <==> Reaches(links, a, node)
  {
    var less := links - {node};
    if Reaches(less, a, node) {
      var n: nat :| Walk(less, a, n) == Some(node);
      WalkWithout(links, node, a, n);
    }
    if Reaches(links, a, node) {
      var n: nat :| Walk(links, a, n) == Some(node);
      if node in links {
        assert links == less[node := links[node]];
        OldWalkOrHit(less, node, links[node], a, n);
      } else {
        assert links == less;
      }
    }
  }

  /**
   Pointing `from` at `to`, whether or not it pointed anywhere before, keeps the graph free of cycles
   exactly when the target did not lead to the source.
   */
  lemma SetLink<K(!new)>(links: map<K, K>, from: K, to: K)
    requires Acyclic(links)
    ensures Acyclic(links[from := to]) <==> !Reaches(links, to, from)
  {
    var less := links - {from};
    forall a, n: nat | 0 < n ensures Walk(less, a, n) != Some(a) {
      if Walk(less, a, n).Some? { WalkWithout(links, from, a, n); }
    }
    assert links[from := to] == less[from := to];
    ReachesWithout(links, to, from);
    AddLink(less, from, to);
  }

  ghost predicate LinkedFrom<K(!new)>(links: map<K, K>, s: set<K>, x: K) {
    exists p :: p in s && p in links && links[p] == x
  }

  /** In a set where everyone is linked to from inside, arbitrarily long walks start. */
  lemma {:induction false} BackwardWalks<K(!new)>(links: map<K, K>, s: set<K>, n: nat) returns (y: K)
    requires s != {} && forall x {:trigger LinkedFrom(links, s, x)} :: x in s ==> LinkedFrom(links, s, x)
    ensures y in s && Walk(links, y, n).Some?
  {
    if n == 0 {
      y :| y in s;
    } else {
      var x := BackwardWalks(links, s, n - 1);
      assert LinkedFrom(links, s, x);
      y :| y in s && y in links && links[y] == x;
    }
  }

  /** So without cycles a non-empty set has a member that nothing in it links to. */
  lemma UnlinkedMember<K(!new)>(links: map<K, K>, s: set<K>) returns (x: K)
    requires Acyclic(links) && s != {}
    ensures x in s && forall p :: p in s && p in links ==> links[p] != x
  {
    if forall x {:trigger LinkedFrom(links, s, x)} :: x in s ==> LinkedFrom(links, s, x) {
      var y := BackwardWalks(links, s, |links| + 1);
      WalkEnds(links, y, |links| + 1);
      assert false;
    }
    x :| x in s && !LinkedFrom(links, s, x);
  }

  // ---------------------------------------------------------------- graphs with cycles

  ghost predicate OnCycle<K(!new)>(links: map<K, K>, a: K) {
    exists n: nat :: 0 < n && Walk(links, a, n) == Some(a)
  }

  /** On a cycle, or reached from one. */
  ghost predicate BelowCycle<K(!new)>(links: map<K, K>, a: K) {
    exists x :: OnCycle(links, x) && Reaches(links, x, a)
  }

  /** The last link of a walk. */
  lemma StepBefore<K(!new)>(links: map<K, K>, a: K, n: nat, b: K) returns (x: K)
    requires 0 < n && Walk(links, a, n) == Some(b)
    ensures x in links && links[x] == b
  {
    WalkAdd(links, a, n - 1, 1);
    x := Walk(links, a, n - 1).value;
    assert Walk(links, x, 1) == Some(b);
  }

  lemma {:induction false} WalkWithin<K(!new)>(links: map<K, K>, some: map<K, K>, a: K, n: nat)
    requires (forall k :: k in some ==> k in links && some[k] == links[k]) && Walk(some, a, n).Some?
    ensures Walk(links, a, n) == Walk(some, a, n)
    ensures n > 0 ==> a in some
  {
    if n > 0 { WalkWithin(links, some, links[a], n - 1); }
  }

  /** Above any node there is one that nothing links to, or one on a cycle. */
  lemma RootOrCycle<K(!new)>(links: map<K, K>, nodes: set<K>, b: K) returns (x: K)
    requires b in nodes && links.Keys <= nodes
    ensures x in nodes && Reaches(links, x, b)
    ensures OnCycle(links, x) || forall p :: p in links ==> links[p] != x
  {
    hide Reaches;
    var above := set a | a in nodes && Reaches(links, a, b);
    ReachesSelf(links, b);
    if exists a :: a in above && OnCycle(links, a) {
      x :| x in above && OnCycle(links, x);
    } else {
      var some := map a | a in links && a in above :: links[a];
      forall a, n: nat | 0 < n ensures Walk(some, a, n) != Some(a) {
        if Walk(some, a, n).Some? {
          WalkWithin(links, some, a, n);
          assert a in above && !OnCycle(links, a);
        }
      }
      assert Acyclic(some) && b in above;
      x := UnlinkedMember(some, above);
      forall p | p in links ensures links[p] != x {
        assert p in above ==> p in some && some[p] == links[p];
        if p !in above { NotAbove(links, p, b); }
      }
    }
  }

  lemma ReachesSelf<K(!new)>(links: map<K, K>, a: K)
    ensures Reaches(links, a, a)
  {
    assert Walk(links, a, 0) == Some(a);
  }

  lemma NotAbove<K(!new)>(links: map<K, K>, a: K, b: K)
    requires a in links && !Reaches(links, a, b)
    ensures !Reaches(links, links[a], b)
  {
    forall n: nat ensures Walk(links, links[a], n) != Some(b) {
      assert Walk(links, a, n + 1) == Walk(links, links[a], n);
    }
  }
}
