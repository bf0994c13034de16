/** The class hierarchy graph: building the maps of ancestors and descendants, and numbering the
    virtual functions group by group. */
module ClassHierarchy {
  import opened ClassClosures
  import opened Reachability
  import opened Sets
  import opened VirtualFunctionIds

  class CHGraph {
    var classNum: nat
    var edges: set<Edge>
    var classNameToAncestorsMap: map<nat, set<nat>>
    var classNameToDescendantsMap: map<nat, set<nat>>
    /** Per class, the vectors of virtual functions of its vtable. */
    var virtualFunctionVectors: seq<seq<seq<nat>>>
    var vfID: nat
    var virtualFunctionToIDMap: map<nat, nat>
    /** The demangled name of a function. */
    const funcName: nat -> string

    constructor (funcName: nat -> string)
      ensures Valid() && classNum == 0 && Unique(virtualFunctionToIDMap, vfID) && this.funcName == funcName
    {
      this.funcName := funcName;
      classNum, edges, classNameToAncestorsMap, classNameToDescendantsMap := 0, {}, map[], map[];
      virtualFunctionVectors, vfID, virtualFunctionToIDMap := [], 0, map[];
    }

    ghost predicate Valid()
      reads this`classNum, this`edges, this`virtualFunctionVectors
    {
      (forall e | e in edges :: e.src < classNum && e.dst < classNum) && |virtualFunctionVectors| == classNum
    }

    /** One class's walk: its ancestors are added under it, and it is added under each of them. */
    method WalkUp(node: nat)
      requires Valid() && node < classNum
      modifies this`classNameToAncestorsMap, this`classNameToDescendantsMap
      ensures Gained(
        old(classNameToAncestorsMap), old(classNameToDescendantsMap),
        classNameToAncestorsMap, classNameToDescendantsMap,
        node, Above(InheritancePairs(edges), node)
      )
    {
      hide Gained, Successors, Above, Reach, Get, Insert;
      ghost var P := InheritancePairs(edges);
      ghost var up0, down0 := classNameToAncestorsMap, classNameToDescendantsMap;
      var worklist: seq<nat> := [node];
      var visitedNodes: set<nat> := {};
      ReachSelf(P, node);
      NoGain(up0, down0, node, P);
      while worklist != []
        invariant node in visitedNodes || node in worklist
        invariant forall v | v in visitedNodes :: v < classNum && Reach(P, node, v)
        invariant forall v | v in worklist :: v < classNum && Reach(P, node, v)
        invariant forall s | s in Successors(P, visitedNodes) :: s in visitedNodes || s in worklist
        invariant Gained(
          up0, down0, classNameToAncestorsMap, classNameToDescendantsMap, node, Successors(P, visitedNodes)
        )
        decreases UpTo(classNum) - visitedNodes, |worklist|
      {
        var current := worklist[0];
        QueueHead(worklist);
        worklist := worklist[1..];
        if current !in visitedNodes {
          ghost var rest := worklist;
          worklist := ScanParents(node, current, worklist, up0, down0, Successors(P, visitedNodes));
          QueueReached(P, node, current, classNum, rest, worklist);
          VisitOneMore(P, visitedNodes, current);
          visitedNodes := visitedNodes + {current};
        }
      }
      ClosedVisit(P, node, visitedNodes);
    }

    /** The walk's scan of one class's parents. */
    method ScanParents(
      node: nat, current: nat, worklist: seq<nat>,
      ghost up0: map<nat, set<nat>>, ghost down0: map<nat, set<nat>>, ghost A: set<nat>
    ) returns (longer: seq<nat>)
      requires Valid()
      requires Gained(up0, down0, classNameToAncestorsMap, classNameToDescendantsMap, node, A)
      modifies this`classNameToAncestorsMap, this`classNameToDescendantsMap
      ensures Gained(up0, down0, classNameToAncestorsMap, classNameToDescendantsMap, node,
                     A + Successors(InheritancePairs(edges), {current}))
      ensures forall v :: v in longer <==> v in worklist || v in Successors(InheritancePairs(edges), {current})
    {
      hide Gained, Insert;
      ghost var P := InheritancePairs(edges);
      longer := worklist;
      assert A + {} == A;
      var outEdges := set e | e in edges && e.src == current;
      ghost var D: set<nat> := {};
      while outEdges != {}
        invariant outEdges <= edges && D <= Successors(P, {current})
        invariant forall e | e in outEdges :: e.src == current
        invariant forall e | e in edges && e.src == current && e.kind.Inheritance? :: e in outEdges || e.dst in D
        invariant forall v :: v in longer <==> v in worklist || v in D
        invariant Gained(up0, down0, classNameToAncestorsMap, classNameToDescendantsMap, node, A + D)
      {
        var edge :| edge in outEdges;
        outEdges := outEdges - {edge};
        if edge.kind.Inheritance? {
          var successor := edge.dst;
          GainsOne(up0, down0, classNameToAncestorsMap, classNameToDescendantsMap, node, A + D, successor);
          classNameToAncestorsMap := Insert(classNameToAncestorsMap, node, successor);
          classNameToDescendantsMap := Insert(classNameToDescendantsMap, successor, node);
          if successor !in longer {
            longer := longer + [successor];
          }
          assert (current, successor) in P;
          assert A + D + {successor} == A + (D + {successor});
          D := D + {successor};
        }
      }
      assert D == Successors(P, {current});
    }

    /** Building the two maps: each class gains exactly the classes above it, by one or more
        inheritance edges, and descendants are the converse. */
    method BuildAncestorsDescendants()
      requires Valid()
      modifies this`classNameToAncestorsMap, this`classNameToDescendantsMap
      ensures forall c: nat, a: nat :: a in Get(classNameToAncestorsMap, c) <==>
        a in Get(old(classNameToAncestorsMap), c) || (c < classNum && ReachPlus(InheritancePairs(edges), c, a))
      ensures forall a: nat, c: nat :: c in Get(classNameToDescendantsMap, a) <==>
        c in Get(old(classNameToDescendantsMap), a) || (c < classNum && ReachPlus(InheritancePairs(edges), c, a))
    {
      hide Get, ReachPlus, Above;
      ghost var P := InheritancePairs(edges);
      for node := 0 to classNum
        invariant forall c: nat, a: nat :: a in Get(classNameToAncestorsMap, c) <==>
          a in Get(old(classNameToAncestorsMap), c) || (c < node && ReachPlus(P, c, a))
        invariant forall a: nat, c: nat :: c in Get(classNameToDescendantsMap, a) <==>
          c in Get(old(classNameToDescendantsMap), a) || (c < node && ReachPlus(P, c, a))
      {
        WalkUp(node);
        forall a: nat ensures a in Above(P, node) <==> ReachPlus(P, node, a) {
          AboveIsReachPlus(P, node, a);
        }
      }
    }

    /** Push everything one edge away, in either direction, and count it in. */
    method PushNeighbours(current: nat, nodeStack: seq<nat>, group: set<nat>)
      returns (nodeStack': seq<nat>, group': set<nat>)
      ensures group' == group + Successors(Neighbours(edges), {current})
      ensures forall v :: v in nodeStack' <==> v in nodeStack || v in Successors(Neighbours(edges), {current})
    {
      nodeStack', group' := nodeStack, group;
      ghost var D: set<nat> := {};
      var outEdges := set e | e in edges && e.src == current;
      while outEdges != {}
        invariant outEdges <= edges && D <= Successors(Neighbours(edges), {current})
        invariant forall e | e in outEdges :: e.src == current
        invariant forall e | e in edges && e.src == current :: e in outEdges || e.dst in D
        invariant group' == group + D && forall v :: v in nodeStack' <==> v in nodeStack || v in D
      {
        var edge :| edge in outEdges;
        outEdges := outEdges - {edge};
        nodeStack' := nodeStack' + [edge.dst];
        group' := group' + {edge.dst};
        assert (current, edge.dst) in Neighbours(edges);
        D := D + {edge.dst};
      }
      var inEdges := set e | e in edges && e.dst == current;
      while inEdges != {}
        invariant inEdges <= edges && D <= Successors(Neighbours(edges), {current})
        invariant forall e | e in inEdges :: e.dst == current
        invariant forall e | e in edges && e.src == current :: e.dst in D
        invariant forall e | e in edges && e.dst == current :: e in inEdges || e.src in D
        invariant group' == group + D && forall v :: v in nodeStack' <==> v in nodeStack || v in D
      {
        var edge :| edge in inEdges;
        inEdges := inEdges - {edge};
        nodeStack' := nodeStack' + [edge.src];
        group' := group' + {edge.src};
        assert (current, edge.src) in Neighbours(edges);
        D := D + {edge.src};
      }
      assert D == Successors(Neighbours(edges), {current});
    }

    /** The depth-first search from a class not visited yet finds its whole group and nothing
        else, although the visited set is shared with the searches before it. */
    method CollectGroup(node: nat, visitedNodes: set<nat>) returns (group: set<nat>, visitedNodes': set<nat>)
      requires Valid() && node < classNum && node !in visitedNodes
      requires Successors(Neighbours(edges), visitedNodes) <= visitedNodes
      ensures group == Group(Neighbours(edges), node, classNum)
      ensures visitedNodes' == visitedNodes + group
      ensures Successors(Neighbours(edges), visitedNodes') <= visitedNodes'
    {
      hide Successors, Neighbours, Group, Reach;
      ghost var P := Neighbours(edges);
      ghost var V: set<nat> := {};
      group, visitedNodes' := {}, visitedNodes;
      var nodeStack := [node];
      ReachSelf(P, node);
      NoSuccessors(P);
      NeighboursWithin(edges, classNum);
      while nodeStack != []
        invariant visitedNodes' == visitedNodes + V && V <= group
        invariant node in V || node in nodeStack
        invariant forall v | v in group || v in nodeStack :: v < classNum && Reach(P, node, v)
        invariant forall s | s in Successors(P, V) :: s in V || s in nodeStack
        decreases UpTo(classNum) - V, |nodeStack|
      {
        var current := nodeStack[|nodeStack| - 1];
        nodeStack := nodeStack[..|nodeStack| - 1];
        assert forall v | v in group || v in nodeStack || v == current :: v < classNum && Reach(P, node, v);
        group := group + {current};
        Unvisited(edges, visitedNodes, node, current);
        if current in visitedNodes' {
          continue;
        }
        ReachSuccessors(P, node, current, classNum);
        nodeStack, group := PushNeighbours(current, nodeStack, group);
        VisitOneMore(P, V, current);
        visitedNodes' := visitedNodes' + {current};
        V := V + {current};
      }
      WholeGroup(P, node, V, group, classNum);
      ClosedUnion(P, visitedNodes, V);
    }

    method GatherFunctions(group: set<nat>) returns (virtualFunctions: set<nat>)
      requires Valid() && forall n | n in group :: n < classNum
      ensures virtualFunctions == FunctionsIn(virtualFunctionVectors, group)
    {
      hide FunctionsIn, FunctionsOf;
      virtualFunctions := {};
      var rest := group;
      NoFunctions(virtualFunctionVectors);
      assert group - rest == {};
      while rest != {}
        invariant rest <= group && virtualFunctions == FunctionsIn(virtualFunctionVectors, group - rest)
      {
        var node :| node in rest;
        FunctionsOfOneMore(virtualFunctionVectors, group - rest, node);
        assert group - (rest - {node}) == group - rest + {node};
        rest := rest - {node};
        var vectors := virtualFunctionVectors[node];
        ghost var before := virtualFunctions;
        for i := 0 to |vectors|
          invariant virtualFunctions == before + FunctionsOf(vectors[..i])
        {
          NextVector(vectors, i);
          var functions := vectors[i];
          for j := 0 to |functions|
            invariant virtualFunctions == before + FunctionsOf(vectors[..i]) + Members(functions[..j])
          {
            NextMember(functions, j);
            virtualFunctions := virtualFunctions + {functions[j]};
          }
          assert functions[..|functions|] == functions;
        }
        assert vectors[..|vectors|] == vectors;
      }
      assert group - rest == group;
    }

    /** Consecutive IDs in the order of name and address; a function numbered before is numbered
        again, and every other keeps its ID. */
    method NumberFunctions(virtualFunctions: set<nat>)
      requires Unique(virtualFunctionToIDMap, vfID)
      modifies this`vfID, this`virtualFunctionToIDMap
      ensures Unique(virtualFunctionToIDMap, vfID)
      ensures vfID == old(vfID) + |KeysOf(funcName, virtualFunctions)|
      ensures virtualFunctionToIDMap.Keys == old(virtualFunctionToIDMap).Keys + virtualFunctions
      ensures NumberedFrom(virtualFunctionToIDMap, KeysOf(funcName, virtualFunctions), old(vfID))
      ensures forall f | f in old(virtualFunctionToIDMap) && f !in virtualFunctions ::
        virtualFunctionToIDMap[f] == old(virtualFunctionToIDMap[f])
    {
      hide KeysOf, Unique, Numbering, InFront, NumberedFrom, FunctionsAmong;
      var fNameSet := KeysOf(funcName, virtualFunctions);
      var rest := fNameSet;
      ghost var done: set<Key> := {};
      StartNumbering(virtualFunctionToIDMap, vfID, fNameSet);
      while rest != {}
        invariant Unique(virtualFunctionToIDMap, vfID)
        invariant Numbering(old(virtualFunctionToIDMap), old(vfID), virtualFunctionToIDMap, vfID, fNameSet, done)
        invariant rest == fNameSet - done && done <= fNameSet && InFront(fNameSet, done)
      {
        ghost var least := LeastKey(rest);
        var k :| k in rest && IsLeast(rest, k);
        NextId(virtualFunctionToIDMap, vfID, k.fn);
        NextInFront(fNameSet, done, k);
        FreshFunction(funcName, virtualFunctions, done, k);
        NumberNext(old(virtualFunctionToIDMap), old(vfID), virtualFunctionToIDMap, vfID, fNameSet, done, k);
        virtualFunctionToIDMap := virtualFunctionToIDMap[k.fn := vfID];
        vfID := vfID + 1;
        rest := rest - {k};
        done := done + {k};
      }
      assert done == fNameSet;
      AllNumbered(old(virtualFunctionToIDMap), old(vfID), virtualFunctionToIDMap, vfID, funcName, virtualFunctions);
    }

    /** One round: the group of an unvisited class is collected and its functions are numbered. */
    method NumberGroupOf(node: nat, visitedNodes: set<nat>) returns (visitedNodes': set<nat>, ghost group: set<nat>)
      requires Valid() && Unique(virtualFunctionToIDMap, vfID) && node < classNum && node !in visitedNodes
      requires Searched(Neighbours(edges), visitedNodes, node, classNum)
      requires BlocksUntil(virtualFunctionToIDMap, funcName, Neighbours(edges), virtualFunctionVectors, node)
      modifies this`vfID, this`virtualFunctionToIDMap
      ensures Searched(Neighbours(edges), visitedNodes', node + 1, classNum) && Unique(virtualFunctionToIDMap, vfID)
      ensures visitedNodes' == visitedNodes + group
      ensures virtualFunctionToIDMap.Keys ==
        old(virtualFunctionToIDMap).Keys + FunctionsIn(virtualFunctionVectors, group)
      ensures BlocksUntil(virtualFunctionToIDMap, funcName, Neighbours(edges), virtualFunctionVectors, node + 1)
    {
      hide Successors, Neighbours, Group, KeysOf, FunctionsIn, BlocksUntil, NumberedFrom, Unique;
      hide IsRoot, Reach, Searched;
      ghost var P, vectors := Neighbours(edges), virtualFunctionVectors;
      ghost var ids, base := virtualFunctionToIDMap, vfID;
      RootIffUnvisited(edges, visitedNodes, node, classNum);
      SearchedIsClosed(P, visitedNodes, node, classNum);
      var classes;
      classes, visitedNodes' := CollectGroup(node, visitedNodes);
      group := classes;
      SearchedMore(P, visitedNodes, node, classNum, group);
      GroupMembers(P, node, classNum);
      var virtualFunctions := GatherFunctions(classes);
      NumberFunctions(virtualFunctions);
      NumberGroup(ids, virtualFunctionToIDMap, funcName, P, vectors, node, base);
    }

    /** After the pass no two functions share an ID, every virtual function has one, and each group
        of connected classes has one gapless block of IDs in the order of name and address,
        except for the functions that a later group shares; a group sharing none has its block
        whole. */
    method BuildVirtualFunctionToIDMap()
      requires Valid() && Unique(virtualFunctionToIDMap, vfID)
      modifies this`vfID, this`virtualFunctionToIDMap
      ensures Unique(virtualFunctionToIDMap, vfID)
      ensures virtualFunctionToIDMap.Keys ==
        old(virtualFunctionToIDMap).Keys + FunctionsIn(virtualFunctionVectors, UpTo(classNum))
      ensures BlocksUntil(virtualFunctionToIDMap, funcName, Neighbours(edges), virtualFunctionVectors, classNum)
      ensures forall n: nat | n < classNum && Isolated(Neighbours(edges), virtualFunctionVectors, n) ::
        var group := GroupFunctions(Neighbours(edges), virtualFunctionVectors, n);
        && HasBlock(virtualFunctionToIDMap, KeysOf(funcName, group))
        && InNameOrder(virtualFunctionToIDMap, funcName, group)
    {
      hide Successors, Neighbours, Group, KeysOf, FunctionsIn, BlocksUntil, NumberedFrom, Unique;
      hide IsRoot, Reach, Searched, InNameOrder, HasBlock;
      ghost var P, vectors := Neighbours(edges), virtualFunctionVectors;
      var visitedNodes: set<nat> := {};
      NoSuccessors(P);
      NoBlocks(virtualFunctionToIDMap, funcName, P, vectors);
      SearchedNothing(P, classNum);
      for node := 0 to classNum
        invariant Searched(P, visitedNodes, node, classNum)
        invariant Unique(virtualFunctionToIDMap, vfID)
        invariant virtualFunctionToIDMap.Keys == old(virtualFunctionToIDMap).Keys + FunctionsIn(vectors, visitedNodes)
        invariant BlocksUntil(virtualFunctionToIDMap, funcName, P, vectors, node)
      {
        RootIffUnvisited(edges, visitedNodes, node, classNum);
        if node in visitedNodes {
          SearchedAlready(P, visitedNodes, node, classNum);
          SkipNode(virtualFunctionToIDMap, funcName, P, vectors, node);
          continue;
        }
        ghost var V, group := visitedNodes, {};
        visitedNodes, group := NumberGroupOf(node, visitedNodes);
        FunctionsOfUnion(vectors, V, group);
      }
      SearchedAll(P, visitedNodes, classNum);
      IsolatedBlocks(virtualFunctionToIDMap, funcName, edges, vectors);
    }
  }
}
