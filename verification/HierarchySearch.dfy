/** When the cached recursive search below a type ends: the search itself, cut off at a call depth. */
module HierarchySearch {
  import opened HierarchyTables
  import opened Reachability

  datatype Option<T> = None | Some(value: T)

  /** The nodes with an edge followed into each node, in the order the search takes them. */
  ghost predicate Lists(sources: nat -> seq<nat>, P: Pairs) {
    forall m: nat, n: nat :: m in sources(n) <==> (m, n) in P
  }

  /** The nodes with a cached answer after the search below `n`, if it ends within `depth` nested
      calls: a node with an answer ends at once, any other asks below the sources of its edges and
      then records its own. */
  function Search(sources: nat -> seq<nat>, cache: set<nat>, n: nat, depth: nat): Option<set<nat>>
    decreases depth, 1, 0
  {
    if n in cache then Some(cache)
    else if depth == 0 then None
    else
      match SearchAll(sources, cache, sources(n), depth - 1)
      case None => None
      case Some(answered) => Some(answered + {n})
  }

  function SearchAll(sources: nat -> seq<nat>, cache: set<nat>, ms: seq<nat>, depth: nat): Option<set<nat>>
    decreases depth, 2, |ms|
  {
    if ms == [] then Some(cache)
    else
      match Search(sources, cache, ms[0], depth)
      case None => None
      case Some(answered) => SearchAll(sources, answered, ms[1..], depth)
  }

  /** Whatever is below a node with an answer has one. */
  ghost predicate ClosedBelow(P: Pairs, cache: set<nat>) {
    forall p | p in P && p.1 in cache :: p.0 in cache
  }

  /** From one cache to a later one: still closed, and what is new lies on no cycle. */
  ghost predicate Answers(P: Pairs, cache: set<nat>, answered: set<nat>) {
    && cache <= answered && ClosedBelow(P, answered)
    && forall x | x in answered - cache :: !ReachPlus(P, x, x)
  }

  lemma BelowClosed(P: Pairs, cache: set<nat>, x: nat, n: nat)
    requires ClosedBelow(P, cache) && n in cache && Reach(P, x, n)
    ensures x in cache
  {
    var p :| Links(P, p, x, n);
    var i := |p| - 1;
    while i > 0
      invariant 0 <= i < |p| && p[i] in cache
    {
      assert (p[i - 1], p[i]) in P;
      i := i - 1;
    }
  }

  lemma {:induction false} SearchAnswers(
    sources: nat -> seq<nat>, P: Pairs, cache: set<nat>, n: nat, depth: nat
  )
    requires Lists(sources, P) && ClosedBelow(P, cache) && Search(sources, cache, n, depth).Some?
    ensures n in Search(sources, cache, n, depth).value
    ensures Answers(P, cache, Search(sources, cache, n, depth).value)
    decreases depth, 1, 0
  {
    if n !in cache {
      SearchAllAnswers(sources, P, cache, sources(n), depth - 1);
      var answered := SearchAll(sources, cache, sources(n), depth - 1).value;
      if n !in answered && ReachPlus(P, n, n) {
        var m := PlusHasLastStep(P, n, n);
        BelowClosed(P, answered, n, m);
      }
    }
  }

  lemma {:induction false} SearchAllAnswers(
    sources: nat -> seq<nat>, P: Pairs, cache: set<nat>, ms: seq<nat>, depth: nat
  )
    requires Lists(sources, P) && ClosedBelow(P, cache) && SearchAll(sources, cache, ms, depth).Some?
    ensures forall m | m in ms :: m in SearchAll(sources, cache, ms, depth).value
    ensures Answers(P, cache, SearchAll(sources, cache, ms, depth).value)
    decreases depth, 2, |ms|
  {
    if ms != [] {
      SearchAnswers(sources, P, cache, ms[0], depth);
      SearchAllAnswers(sources, P, Search(sources, cache, ms[0], depth).value, ms[1..], depth);
    }
  }

  /** Nothing below `n` lies on a cycle, but for what has an answer. */
  ghost predicate NoCycleBelow(P: Pairs, cache: set<nat>, n: nat) {
    forall x: nat | Reach(P, x, n) && x !in cache :: !ReachPlus(P, x, x)
  }

  lemma {:induction false} SearchEnds(sources: nat -> seq<nat>, P: Pairs, cache: set<nat>, n: nat, depth: nat)
    requires Lists(sources, P) && ClosedBelow(P, cache) && NoCycleBelow(P, cache, n) && depth >= |Below(P, n)|
    ensures Search(sources, cache, n, depth).Some?
    decreases depth, 1, 0
  {
    BelowItself(P, n);
    if n !in cache {
      ReachSelf(P, n);
      forall m | m in sources(n) ensures NoCycleBelow(P, cache, m) && depth - 1 >= |Below(P, m)| {
        MoreBelow(P, m, n);
        CycleBelowStep(P, cache, m, n);
      }
      SearchAllEnds(sources, P, cache, sources(n), depth - 1);
    }
  }

  lemma CycleBelowStep(P: Pairs, cache: set<nat>, m: nat, n: nat)
    requires NoCycleBelow(P, cache, n) && (m, n) in P
    ensures NoCycleBelow(P, cache, m)
  {
    forall x: nat | Reach(P, x, m) && x !in cache ensures !ReachPlus(P, x, x) {
      ReachStep(P, m, n);
      ReachTrans(P, x, m, n);
    }
  }

  lemma {:induction false} SearchAllEnds(
    sources: nat -> seq<nat>, P: Pairs, cache: set<nat>, ms: seq<nat>, depth: nat
  )
    requires Lists(sources, P) && ClosedBelow(P, cache)
    requires forall m | m in ms :: NoCycleBelow(P, cache, m) && depth >= |Below(P, m)|
    ensures SearchAll(sources, cache, ms, depth).Some?
    decreases depth, 2, |ms|
  {
    if ms != [] {
      SearchEnds(sources, P, cache, ms[0], depth);
      SearchAnswers(sources, P, cache, ms[0], depth);
      var answered := Search(sources, cache, ms[0], depth).value;
      forall m | m in ms[1..] ensures NoCycleBelow(P, answered, m) {
        MoreAnswered(P, cache, answered, m);
      }
      SearchAllEnds(sources, P, answered, ms[1..], depth);
    }
  }

  lemma MoreAnswered(P: Pairs, cache: set<nat>, answered: set<nat>, m: nat)
    requires NoCycleBelow(P, cache, m) && cache <= answered
    ensures NoCycleBelow(P, answered, m)
  {
  }

  /** The search ends at some depth exactly when nothing below the node lies on a cycle of the edges
      followed, but for nodes that have an answer already. */
  lemma SearchEndsIff(sources: nat -> seq<nat>, P: Pairs, cache: set<nat>, n: nat)
    requires Lists(sources, P) && ClosedBelow(P, cache)
    ensures (exists depth: nat :: Search(sources, cache, n, depth).Some?) <==> NoCycleBelow(P, cache, n)
  {
    if depth: nat :| Search(sources, cache, n, depth).Some? {
      SearchAnswers(sources, P, cache, n, depth);
      forall x: nat | Reach(P, x, n) && x !in cache ensures !ReachPlus(P, x, x) {
        BelowClosed(P, Search(sources, cache, n, depth).value, x, n);
      }
    }
    if NoCycleBelow(P, cache, n) {
      SearchEnds(sources, P, cache, n, |Below(P, n)|);
    }
  }

  /** Below a cycle none of whose nodes has an answer, the search ends at no depth. */
  lemma NeverEnds(sources: nat -> seq<nat>, P: Pairs, cache: set<nat>, x: nat, n: nat, depth: nat)
    requires Lists(sources, P) && ClosedBelow(P, cache)
    requires ReachPlus(P, x, x) && x !in cache && Reach(P, x, n)
    ensures Search(sources, cache, n, depth).None?
  {
    SearchEndsIff(sources, P, cache, n);
  }
}
