/** The groups of connected classes, and the numbering of their virtual functions in the order of
    demangled name and then address. */
module VirtualFunctionIds {
  import opened ClassClosures
  import opened Reachability
  import opened Sets

  /** Edges of every kind, in both directions. */
  function Neighbours(E: set<Edge>): Pairs {
    (set e | e in E :: (e.src, e.dst)) + set e | e in E :: (e.dst, e.src)
  }

  /** Two classes are neighbours when an edge of any kind leads from one to the other. */
  lemma NeighboursAre(E: set<Edge>, m: nat, n: nat)
    ensures (m, n) in Neighbours(E) <==> exists kind :: Edge(m, n, kind) in E || Edge(n, m, kind) in E
  {
    if (m, n) in Neighbours(E) {
      var e :| e in E && ((e.src, e.dst) == (m, n) || (e.dst, e.src) == (m, n));
      assert e == Edge(e.src, e.dst, e.kind);
    }
  }

  lemma NeighboursSymmetric(E: set<Edge>)
    ensures Converse(Neighbours(E)) <= Neighbours(E)
  {
  }

  /** The weakly connected component of `n` among the nodes below `limit`. */
  ghost function Group(P: Pairs, n: nat, limit: nat): set<nat> {
    set m | m in UpTo(limit) && Reach(P, n, m)
  }

  /** A node that starts a group: the least of its component. */
  ghost predicate IsRoot(P: Pairs, n: nat) {
    forall m: nat | Reach(P, n, m) :: n <= m
  }

  lemma NoSuccessors(P: Pairs)
    ensures Successors(P, {}) == {}
  {
  }

  lemma NeighboursWithin(E: set<Edge>, limit: nat)
    requires forall e | e in E :: e.src < limit && e.dst < limit
    ensures forall p | p in Neighbours(E) :: p.1 < limit
  {
  }

  /** Nothing visited in an earlier search is reached from a node that was not. */
  lemma Unvisited(E: set<Edge>, V: set<nat>, n: nat, m: nat)
    requires Successors(Neighbours(E), V) <= V && n !in V && Reach(Neighbours(E), n, m)
    ensures m !in V
  {
    if m in V {
      var P := Neighbours(E);
      NeighboursSymmetric(E);
      ReachSymmetric(P, n, m);
      forall x, y | x in V && (x, y) in P ensures y in V {
        assert (x, y).1 in Successors(P, V);
      }
      ClosedReach(P, V, m, n);
    }
  }

  /** What a finished search visited is the whole group. */
  lemma WholeGroup(P: Pairs, n: nat, V: set<nat>, group: set<nat>, limit: nat)
    requires n in V && V <= group && Successors(P, V) <= V
    requires forall m | m in group :: m < limit && Reach(P, n, m)
    ensures V == group == Group(P, n, limit)
  {
    forall m | m in Group(P, n, limit) ensures m in V {
      forall x, y | x in V && (x, y) in P ensures y in V {
        assert (x, y).1 in Successors(P, V);
      }
      ClosedReach(P, V, n, m);
    }
  }

  lemma ClosedUnion(P: Pairs, V: set<nat>, W: set<nat>)
    requires Successors(P, V) <= V && Successors(P, W) <= W
    ensures Successors(P, V + W) <= V + W
  {
    forall y | y in Successors(P, V + W) ensures y in V + W {
      var p :| p in P && p.0 in V + W && p.1 == y;
      assert y in Successors(P, if p.0 in V then V else W);
    }
  }

  function FunctionsOf(vectors: seq<seq<nat>>): set<nat> {
    set fs, f | fs in vectors && f in fs :: f
  }

  function FunctionsIn(vectors: seq<seq<seq<nat>>>, group: set<nat>): set<nat> {
    set n, f | n in group && n < |vectors| && f in FunctionsOf(vectors[n]) :: f
  }

  /** Some slot of some vector of some class of the group holds the function. */
  lemma FunctionsInAre(vectors: seq<seq<seq<nat>>>, group: set<nat>, f: nat)
    ensures f in FunctionsIn(vectors, group) <==>
      exists n: nat, i: nat, j: nat ::
        n in group && n < |vectors| && i < |vectors[n]| && j < |vectors[n][i]| && vectors[n][i][j] == f
  {
    if f in FunctionsIn(vectors, group) {
      var n :| n in group && n < |vectors| && f in FunctionsOf(vectors[n]);
      var fs :| fs in vectors[n] && f in fs;
      var i: nat :| i < |vectors[n]| && vectors[n][i] == fs;
      var j: nat :| j < |fs| && fs[j] == f;
    }
    if n: nat, i: nat, j: nat :|
      n in group && n < |vectors| && i < |vectors[n]| && j < |vectors[n][i]| && vectors[n][i][j] == f
    {
      var fs := vectors[n][i];
      assert fs in vectors[n] && f in fs;
      assert f in FunctionsOf(vectors[n]);
    }
  }

  lemma FunctionsOfOneMore(vectors: seq<seq<seq<nat>>>, group: set<nat>, n: nat)
    requires n < |vectors|
    ensures FunctionsIn(vectors, group + {n}) == FunctionsIn(vectors, group) + FunctionsOf(vectors[n])
  {
  }

  function Members(s: seq<nat>): set<nat> {
    set x | x in s
  }

  lemma NextMember(s: seq<nat>, j: nat)
    requires j < |s|
    ensures Members(s[..j + 1]) == Members(s[..j]) + {s[j]}
  {
    assert s[..j + 1] == s[..j] + [s[j]];
  }

  lemma NoFunctions(vectors: seq<seq<seq<nat>>>)
    ensures FunctionsIn(vectors, {}) == {} && FunctionsOf([]) == {} && Members([]) == {}
  {
  }

  lemma NextVector(vectors: seq<seq<nat>>, i: nat)
    requires i < |vectors|
    ensures FunctionsOf(vectors[..i + 1]) == FunctionsOf(vectors[..i]) + Members(vectors[i])
  {
    assert vectors[..i + 1] == vectors[..i] + [vectors[i]];
  }

  datatype Key = Key(name: string, fn: nat)

  /** Lexicographic order, a proper prefix first. */
  predicate StringLess(a: string, b: string) {
    b != "" && (a == "" || a[0] < b[0] || (a[0] == b[0] && StringLess(a[1..], b[1..])))
  }

  predicate KeyLess(k: Key, l: Key) {
    StringLess(k.name, l.name) || (k.name == l.name && k.fn < l.fn)
  }

  /** At the first difference `a` has the smaller character, or ends. */
  ghost predicate ComesFirst(a: string, b: string) {
    exists i: nat :: i <= |a| && i < |b| && a[..i] == b[..i] && (i == |a| || a[i] < b[i])
  }

  lemma {:induction false} StringLessIff(a: string, b: string)
    ensures StringLess(a, b) <==> ComesFirst(a, b)
  {
    if a == "" || b == "" {
      if b != "" {
        assert a[..0] == b[..0];
      }
    } else {
      StringLessIff(a[1..], b[1..]);
      if ComesFirst(a, b) {
        var i: nat :| i <= |a| && i < |b| && a[..i] == b[..i] && (i == |a| || a[i] < b[i]);
        if i > 0 {
          SamePrefix(a, b, i);
        }
      }
      if a[0] < b[0] {
        assert a[..0] == b[..0];
      } else if a[0] == b[0] && ComesFirst(a[1..], b[1..]) {
        var i: nat :|
          i <= |a[1..]| && i < |b[1..]| && a[1..][..i] == b[1..][..i] && (i == |a[1..]| || a[1..][i] < b[1..][i]);
        SamePrefix(a, b, i + 1);
      }
    }
  }

  lemma SamePrefix(a: string, b: string, i: nat)
    requires 0 < i <= |a| && i <= |b|
    ensures a[..i] == b[..i] <==> a[0] == b[0] && a[1..][..i - 1] == b[1..][..i - 1]
  {
    assert a[..i] == [a[0]] + a[1..][..i - 1];
    assert b[..i] == [b[0]] + b[1..][..i - 1];
  }

  lemma {:induction false} StringTotal(a: string, b: string)
    ensures !StringLess(a, a)
    ensures a == b || StringLess(a, b) || StringLess(b, a)
    ensures !(StringLess(a, b) && StringLess(b, a))
  {
    if a != "" {
      StringTotal(a[1..], if b != "" then b[1..] else b);
      if b != "" && a[0] == b[0] && a[1..] == b[1..] {
        assert a == [a[0]] + a[1..] && b == [b[0]] + b[1..];
      }
    }
  }

  lemma {:induction false} StringTransitive(a: string, b: string, c: string)
    requires StringLess(a, b) && StringLess(b, c)
    ensures StringLess(a, c)
  {
    if a != "" && a[0] == b[0] == c[0] {
      StringTransitive(a[1..], b[1..], c[1..]);
    }
  }

  lemma KeyOrder(k: Key, l: Key, m: Key)
    ensures k == l || KeyLess(k, l) || KeyLess(l, k)
    ensures !KeyLess(k, k) && !(KeyLess(k, l) && KeyLess(l, k))
    ensures KeyLess(k, l) && KeyLess(l, m) ==> KeyLess(k, m)
  {
    StringTotal(k.name, l.name);
    StringTotal(k.name, k.name);
    if StringLess(k.name, l.name) && StringLess(l.name, m.name) {
      StringTransitive(k.name, l.name, m.name);
    }
  }

  predicate IsLeast(K: set<Key>, k: Key) {
    k in K && forall l | l in K :: l == k || KeyLess(k, l)
  }

  lemma {:induction false} LeastKey(K: set<Key>) returns (k: Key)
    requires K != {}
    ensures IsLeast(K, k)
    decreases |K|
  {
    k :| k in K;
    var rest := K - {k};
    assert K == rest + {k};
    if rest != {} {
      var l := LeastKey(rest);
      KeyOrder(k, l, l);
      var least := if KeyLess(l, k) then l else k;
      forall m | m in K ensures m == least || KeyLess(least, m) {
        KeyOrder(k, l, m);
      }
      k := least;
    }
  }

  /** The number of keys in front of `k`. */
  function Rank(K: set<Key>, k: Key): nat {
    |set l | l in K && KeyLess(l, k)|
  }

  lemma RankOfNext(K: set<Key>, rest: set<Key>, k: Key)
    requires rest <= K && IsLeast(rest, k) && forall d, r | d in K - rest && r in rest :: KeyLess(d, r)
    ensures Rank(K, k) == |K - rest|
  {
    assert (set l | l in K && KeyLess(l, k)) == K - rest by {
      forall l | l in K ensures KeyLess(l, k) <==> l !in rest {
        KeyOrder(l, k, k);
      }
    }
  }

  function KeysOf(funcName: nat -> string, F: set<nat>): set<Key> {
    set f | f in F :: Key(funcName(f), f)
  }

  /** No two functions share an ID, and every ID has been handed out. */
  ghost predicate Unique(ids: map<nat, nat>, vfID: nat) {
    && (forall f | f in ids :: ids[f] < vfID)
    && (forall f, g | f in ids && g in ids && f != g :: ids[f] != ids[g])
  }

  lemma NextId(ids: map<nat, nat>, vfID: nat, f: nat)
    requires Unique(ids, vfID)
    ensures Unique(ids[f := vfID], vfID + 1)
  {
  }

  lemma OneKeyEach(funcName: nat -> string, F: set<nat>)
    ensures forall k, l | k in KeysOf(funcName, F) && l in KeysOf(funcName, F) :: k.fn == l.fn ==> k == l
    ensures F == set k | k in KeysOf(funcName, F) :: k.fn
  {
    forall f | f in F ensures exists k :: k in KeysOf(funcName, F) && k.fn == f {
      assert Key(funcName(f), f) in KeysOf(funcName, F);
    }
  }

  /** The functions of `K` are numbered from `base` on, in key order and without gaps. */
  ghost predicate NumberedFrom(ids: map<nat, nat>, K: set<Key>, base: nat) {
    forall k | k in K :: k.fn in ids && ids[k.fn] == base + Rank(K, k)
  }

  ghost predicate HasBlock(ids: map<nat, nat>, K: set<Key>) {
    exists base: nat :: NumberedFrom(ids, K, base)
  }

  /** Ranks, so the IDs of a block too, follow the order of the keys and fill `|K|` places. */
  lemma RankFollowsKeys(K: set<Key>, k: Key, l: Key)
    requires k in K && l in K
    ensures Rank(K, k) < |K|
    ensures KeyLess(k, l) <==> Rank(K, k) < Rank(K, l)
  {
    KeyOrder(k, l, l);
    RankGrows(K, k, l);
    RankGrows(K, l, k);
    var front := set m | m in K && KeyLess(m, k);
    KeyOrder(k, k, k);
    ProperSubsetSize(front, K, k);
  }

  /** The IDs of `F` are `|F|` consecutive numbers, in the order of the functions' names, and of their
      addresses where names are equal. */
  ghost predicate InNameOrder(ids: map<nat, nat>, funcName: nat -> string, F: set<nat>) {
    && (forall f | f in F :: f in ids)
    && (forall f, g | f in F && g in F :: ids[f] < ids[g] <==>
          ComesFirst(funcName(f), funcName(g)) || (funcName(f) == funcName(g) && f < g))
    && (forall f, g | f in F && g in F :: ids[f] < ids[g] + |F|)
  }

  lemma BlockInNameOrder(ids: map<nat, nat>, funcName: nat -> string, F: set<nat>)
    requires HasBlock(ids, KeysOf(funcName, F))
    ensures InNameOrder(ids, funcName, F)
  {
    hide KeysOf, NumberedFrom, ComesFirst;
    var base: nat :| NumberedFrom(ids, KeysOf(funcName, F), base);
    forall f, g | f in F && g in F
      ensures f in ids && g in ids && ids[f] < ids[g] + |F|
      ensures ids[f] < ids[g] <==> ComesFirst(funcName(f), funcName(g)) || (funcName(f) == funcName(g) && f < g)
    {
      PairInNameOrder(ids, funcName, F, base, f, g);
    }
  }

  lemma PairInNameOrder(ids: map<nat, nat>, funcName: nat -> string, F: set<nat>, base: nat, f: nat, g: nat)
    requires NumberedFrom(ids, KeysOf(funcName, F), base) && f in F && g in F
    ensures f in ids && g in ids && ids[f] < ids[g] + |F|
    ensures ids[f] < ids[g] <==> ComesFirst(funcName(f), funcName(g)) || (funcName(f) == funcName(g) && f < g)
  {
    hide Rank, StringLess, ComesFirst;
    var K := KeysOf(funcName, F);
    KeyCount(funcName, F);
    var k, l := Key(funcName(f), f), Key(funcName(g), g);
    assert k in K && l in K;
    RankFollowsKeys(K, k, l);
    RankFollowsKeys(K, k, k);
    StringLessIff(k.name, l.name);
  }

  lemma {:induction false} KeyCount(funcName: nat -> string, F: set<nat>)
    ensures |KeysOf(funcName, F)| == |F|
    decreases |F|
  {
    if f :| f in F {
      KeyCount(funcName, F - {f});
      assert KeysOf(funcName, F) == KeysOf(funcName, F - {f}) + {Key(funcName(f), f)};
    }
  }

  lemma RankGrows(K: set<Key>, k: Key, l: Key)
    requires k in K && l in K
    ensures KeyLess(k, l) ==> Rank(K, k) < Rank(K, l)
  {
    if KeyLess(k, l) {
      var a, b := set m | m in K && KeyLess(m, k), set m | m in K && KeyLess(m, l);
      forall m | m in a ensures m in b {
        KeyOrder(m, k, l);
      }
      KeyOrder(k, k, k);
      ProperSubsetSize(a, b, k);
    }
  }

  function FunctionsAmong(K: set<Key>): set<nat> {
    set k | k in K :: k.fn
  }

  /** `done` comes before the rest of `K`. */
  ghost predicate InFront(K: set<Key>, done: set<Key>) {
    done <= K && forall d, r | d in done && r in K - done :: KeyLess(d, r)
  }

  lemma NextInFront(K: set<Key>, done: set<Key>, k: Key)
    requires InFront(K, done) && IsLeast(K - done, k)
    ensures InFront(K, done + {k}) && Rank(K, k) == |done|
  {
    hide Rank, KeyLess;
    assert K - (K - done) == done;
    RankOfNext(K, K - done, k);
  }

  /** Midway: `done` has been numbered in rank order. */
  ghost predicate Numbering(
    ids0: map<nat, nat>, base: nat, ids: map<nat, nat>, vfID: nat, K: set<Key>, done: set<Key>
  ) {
    && vfID == base + |done|
    && (forall d | d in done :: d.fn in ids && ids[d.fn] == base + Rank(K, d))
    && ids.Keys == ids0.Keys + FunctionsAmong(done)
    && (forall f | f in ids0 && f !in FunctionsAmong(done) :: ids[f] == ids0[f])
  }

  lemma StartNumbering(ids: map<nat, nat>, vfID: nat, K: set<Key>)
    ensures InFront(K, {}) && Numbering(ids, vfID, ids, vfID, K, {})
  {
  }

  lemma OneMoreFunction(done: set<Key>, k: Key)
    ensures FunctionsAmong(done + {k}) == FunctionsAmong(done) + {k.fn}
  {
  }

  lemma NumberNext(
    ids0: map<nat, nat>, base: nat, ids: map<nat, nat>, vfID: nat, K: set<Key>, done: set<Key>, k: Key
  )
    requires Numbering(ids0, base, ids, vfID, K, done)
    requires k !in done && Rank(K, k) == |done| && k.fn !in FunctionsAmong(done)
    ensures Numbering(ids0, base, ids[k.fn := vfID], vfID + 1, K, done + {k})
  {
    hide Rank;
    OneMoreFunction(done, k);
  }

  lemma FreshFunction(funcName: nat -> string, F: set<nat>, done: set<Key>, k: Key)
    requires done <= KeysOf(funcName, F) && k in KeysOf(funcName, F) && k !in done
    ensures k.fn !in FunctionsAmong(done)
  {
  }

  lemma AllNumbered(
    ids0: map<nat, nat>, base: nat, ids: map<nat, nat>, vfID: nat, funcName: nat -> string, F: set<nat>
  )
    requires Numbering(ids0, base, ids, vfID, KeysOf(funcName, F), KeysOf(funcName, F))
    ensures vfID == base + |KeysOf(funcName, F)| && ids.Keys == ids0.Keys + F
    ensures NumberedFrom(ids, KeysOf(funcName, F), base)
    ensures forall f | f in ids0 && f !in F :: ids[f] == ids0[f]
  {
    hide Rank, KeyLess, KeysOf;
    OneKeyEach(funcName, F);
  }

  ghost function GroupFunctions(P: Pairs, vectors: seq<seq<seq<nat>>>, n: nat): set<nat> {
    FunctionsIn(vectors, Group(P, n, |vectors|))
  }

  /** A group between `r` and `i` shares the function, and so numbers it again. */
  ghost predicate Renumbered(P: Pairs, vectors: seq<seq<seq<nat>>>, f: nat, r: nat, i: nat) {
    exists s: nat :: r < s < i && IsRoot(P, s) && f in GroupFunctions(P, vectors, s)
  }

  /** The group of `r` has its block, except for functions numbered again before `i`. */
  ghost predicate BlockUntil(
    ids: map<nat, nat>, funcName: nat -> string, P: Pairs, vectors: seq<seq<seq<nat>>>, r: nat, i: nat, base: nat
  ) {
    forall k | k in KeysOf(funcName, GroupFunctions(P, vectors, r)) && !Renumbered(P, vectors, k.fn, r, i) ::
      k.fn in ids && ids[k.fn] == base + Rank(KeysOf(funcName, GroupFunctions(P, vectors, r)), k)
  }

  ghost predicate SomeBlock(
    ids: map<nat, nat>, funcName: nat -> string, P: Pairs, vectors: seq<seq<seq<nat>>>, r: nat, i: nat
  ) {
    exists base: nat :: BlockUntil(ids, funcName, P, vectors, r, i, base)
  }

  ghost predicate BlocksUntil(
    ids: map<nat, nat>, funcName: nat -> string, P: Pairs, vectors: seq<seq<seq<nat>>>, i: nat
  ) {
    forall r: nat | r < i && IsRoot(P, r) :: SomeBlock(ids, funcName, P, vectors, r, i)
  }

  lemma NoBlocks(ids: map<nat, nat>, funcName: nat -> string, P: Pairs, vectors: seq<seq<seq<nat>>>)
    ensures BlocksUntil(ids, funcName, P, vectors, 0) && FunctionsIn(vectors, {}) == {}
  {
  }

  /** The groups of the nodes below `n` have been visited, and nothing else. */
  ghost predicate Searched(P: Pairs, V: set<nat>, n: nat, limit: nat) {
    && V <= UpTo(limit) && Successors(P, V) <= V
    && (forall m: nat | m < n :: m in V)
    && (forall m | m in V :: FromBelow(P, m, n))
  }

  lemma SearchedNothing(P: Pairs, limit: nat)
    ensures Searched(P, {}, 0, limit)
  {
  }

  lemma SearchedAll(P: Pairs, V: set<nat>, limit: nat)
    requires Searched(P, V, limit, limit)
    ensures V == UpTo(limit)
  {
  }

  lemma SearchedIsClosed(P: Pairs, V: set<nat>, n: nat, limit: nat)
    requires Searched(P, V, n, limit)
    ensures Successors(P, V) <= V
  {
  }

  ghost predicate FromBelow(P: Pairs, m: nat, n: nat) {
    exists r: nat :: r < n && Reach(P, r, m)
  }

  /** In increasing order, the unvisited nodes are the least of their groups. */
  lemma RootIffUnvisited(E: set<Edge>, V: set<nat>, n: nat, limit: nat)
    requires Searched(Neighbours(E), V, n, limit)
    ensures n !in V <==> IsRoot(Neighbours(E), n)
  {
    var P := Neighbours(E);
    if n in V {
      var r: nat :| r < n && Reach(P, r, n);
      NeighboursSymmetric(E);
      ReachSymmetric(P, r, n);
    } else {
      forall m: nat | Reach(P, n, m) ensures n <= m {
        Unvisited(E, V, n, m);
      }
    }
  }

  lemma SearchedAlready(P: Pairs, V: set<nat>, n: nat, limit: nat)
    requires Searched(P, V, n, limit) && n in V
    ensures Searched(P, V, n + 1, limit)
  {
    hide Successors, Reach;
    forall m | m in V ensures FromBelow(P, m, n + 1) {
      var r: nat :| r < n && Reach(P, r, m);
    }
  }

  lemma SearchedMore(P: Pairs, V: set<nat>, n: nat, limit: nat, group: set<nat>)
    requires Searched(P, V, n, limit) && Successors(P, V + group) <= V + group
    requires n < limit && group == Group(P, n, limit)
    ensures Searched(P, V + group, n + 1, limit)
  {
    hide Successors, Reach;
    GroupMembers(P, n, limit);
    forall m | m in V + group ensures FromBelow(P, m, n + 1) {
      if m in V {
        var r: nat :| r < n && Reach(P, r, m);
      }
    }
  }

  lemma GroupMembers(P: Pairs, n: nat, limit: nat)
    requires n < limit
    ensures n in Group(P, n, limit) && forall m | m in Group(P, n, limit) :: m < limit && Reach(P, n, m)
  {
    ReachSelf(P, n);
  }

  lemma FunctionsOfUnion(vectors: seq<seq<seq<nat>>>, V: set<nat>, W: set<nat>)
    ensures FunctionsIn(vectors, V + W) == FunctionsIn(vectors, V) + FunctionsIn(vectors, W)
  {
  }

  lemma SkipNode(ids: map<nat, nat>, funcName: nat -> string, P: Pairs, vectors: seq<seq<seq<nat>>>, i: nat)
    requires BlocksUntil(ids, funcName, P, vectors, i) && !IsRoot(P, i)
    ensures BlocksUntil(ids, funcName, P, vectors, i + 1)
  {
    hide KeysOf, GroupFunctions, IsRoot;
    forall r: nat | r < i + 1 && IsRoot(P, r) ensures SomeBlock(ids, funcName, P, vectors, r, i + 1) {
      var base: nat :| BlockUntil(ids, funcName, P, vectors, r, i, base);
      assert BlockUntil(ids, funcName, P, vectors, r, i + 1, base);
    }
  }

  lemma NumberGroup(
    ids: map<nat, nat>, ids': map<nat, nat>, funcName: nat -> string, P: Pairs, vectors: seq<seq<seq<nat>>>,
    i: nat, base: nat
  )
    requires BlocksUntil(ids, funcName, P, vectors, i) && IsRoot(P, i)
    requires NumberedFrom(ids', KeysOf(funcName, GroupFunctions(P, vectors, i)), base)
    requires forall f | f in ids && f !in GroupFunctions(P, vectors, i) :: f in ids' && ids'[f] == ids[f]
    ensures BlocksUntil(ids', funcName, P, vectors, i + 1)
  {
    hide KeysOf, GroupFunctions, IsRoot;
    forall r: nat | r < i + 1 && IsRoot(P, r) ensures SomeBlock(ids', funcName, P, vectors, r, i + 1) {
      if r == i {
        assert BlockUntil(ids', funcName, P, vectors, r, i + 1, base);
      } else {
        var b: nat :| BlockUntil(ids, funcName, P, vectors, r, i, b);
        assert BlockUntil(ids', funcName, P, vectors, r, i + 1, b);
      }
    }
  }

  /** No class outside the group of `n` has one of the group's functions. */
  ghost predicate Isolated(P: Pairs, vectors: seq<seq<seq<nat>>>, n: nat) {
    forall m: nat | m < |vectors| && !Reach(P, n, m) :: FunctionsOf(vectors[m]) !! GroupFunctions(P, vectors, n)
  }

  lemma GroupRoot(P: Pairs, n: nat) returns (r: nat)
    requires Converse(P) <= P
    ensures IsRoot(P, r) && r <= n && Reach(P, r, n)
  {
    r := n;
    ReachSelf(P, n);
    while !IsRoot(P, r)
      invariant r <= n && Reach(P, r, n)
      decreases r
    {
      var m: nat :| Reach(P, r, m) && m < r;
      ReachSymmetric(P, r, m);
      ReachTrans(P, m, r, n);
      r := m;
    }
  }

  lemma SameGroup(P: Pairs, r: nat, n: nat, limit: nat)
    requires Converse(P) <= P && Reach(P, r, n)
    ensures Group(P, r, limit) == Group(P, n, limit)
    ensures forall m: nat :: Reach(P, r, m) == Reach(P, n, m)
  {
    ReachSymmetric(P, r, n);
    forall m: nat ensures Reach(P, r, m) == Reach(P, n, m) {
      if Reach(P, r, m) {
        ReachTrans(P, n, r, m);
      }
      if Reach(P, n, m) {
        ReachTrans(P, r, n, m);
      }
    }
  }

  /** A group that shares no function keeps its block whole. */
  lemma IsolatedBlock(
    ids: map<nat, nat>, funcName: nat -> string, P: Pairs, vectors: seq<seq<seq<nat>>>, n: nat
  )
    requires BlocksUntil(ids, funcName, P, vectors, |vectors|) && Converse(P) <= P
    requires n < |vectors| && Isolated(P, vectors, n)
    ensures HasBlock(ids, KeysOf(funcName, GroupFunctions(P, vectors, n)))
  {
    var r := GroupRoot(P, n);
    SameGroup(P, r, n, |vectors|);
    var base: nat :| BlockUntil(ids, funcName, P, vectors, r, |vectors|, base);
    var K := KeysOf(funcName, GroupFunctions(P, vectors, n));
    forall k | k in K ensures k.fn in ids && ids[k.fn] == base + Rank(K, k) {
      NeverRenumbered(P, vectors, n, r, k.fn);
    }
    assert NumberedFrom(ids, K, base);
  }

  lemma IsolatedBlocks(ids: map<nat, nat>, funcName: nat -> string, E: set<Edge>, vectors: seq<seq<seq<nat>>>)
    requires BlocksUntil(ids, funcName, Neighbours(E), vectors, |vectors|)
    ensures forall n: nat | n < |vectors| && Isolated(Neighbours(E), vectors, n) ::
      && HasBlock(ids, KeysOf(funcName, GroupFunctions(Neighbours(E), vectors, n)))
      && InNameOrder(ids, funcName, GroupFunctions(Neighbours(E), vectors, n))
  {
    hide BlocksUntil, Isolated, HasBlock, KeysOf, InNameOrder, GroupFunctions, Neighbours, Converse;
    var P := Neighbours(E);
    NeighboursSymmetric(E);
    forall n: nat | n < |vectors| && Isolated(P, vectors, n)
      ensures HasBlock(ids, KeysOf(funcName, GroupFunctions(P, vectors, n)))
      ensures InNameOrder(ids, funcName, GroupFunctions(P, vectors, n))
    {
      IsolatedBlock(ids, funcName, P, vectors, n);
      BlockInNameOrder(ids, funcName, GroupFunctions(P, vectors, n));
    }
  }

  lemma NeverRenumbered(P: Pairs, vectors: seq<seq<seq<nat>>>, n: nat, r: nat, f: nat)
    requires Converse(P) <= P && Isolated(P, vectors, n) && Reach(P, r, n) && f in GroupFunctions(P, vectors, n)
    ensures !Renumbered(P, vectors, f, r, |vectors|)
  {
    if Renumbered(P, vectors, f, r, |vectors|) {
      var s: nat :| r < s < |vectors| && IsRoot(P, s) && f in GroupFunctions(P, vectors, s);
      var m :| m in Group(P, s, |vectors|) && f in FunctionsOf(vectors[m]);
      assert Reach(P, n, m);
      ReachSymmetric(P, n, m);
      ReachTrans(P, s, m, n);
      ReachSymmetric(P, r, n);
      ReachTrans(P, s, n, r);
    }
  }
}
