/** Replacement of converted values in metadata: MetadataUpdater in compilerutils/lib/DxilToLlvm.cpp. */
module MetadataWalk {
  type NodeId = nat
  type ValueMdId = nat
  type Value = nat
  type Type = nat

  datatype Operand = Null | Node(node: NodeId) | ValueMd(md: ValueMdId) | Text

  /** The operands of every node; the graph may be cyclic. */
  type Graph = map<NodeId, seq<Operand>>

  predicate WellFormed(g: Graph)
  {
    forall n, o :: n in g && o in g[n] && o.Node? ==> o.node in g
  }

  // ----- reachability -----

  predicate IsPath(g: Graph, path: seq<NodeId>)
  {
    path != [] && path[0] in g && forall i :: 0 < i < |path| ==> IsEdge(g, path, i)
  }

  predicate IsEdge(g: Graph, path: seq<NodeId>, i: nat)
    requires 0 < i < |path|
  {
    path[i - 1] in g && Node(path[i]) in g[path[i - 1]]
  }

  ghost predicate Reaches(g: Graph, from: NodeId, to: NodeId)
  {
    exists path :: IsPath(g, path) && path[0] == from && path[|path| - 1] == to
  }

  ghost predicate ReachedFrom(g: Graph, roots: set<NodeId>, to: NodeId)
  {
    exists root :: root in roots && Reaches(g, root, to)
  }

  /** With a node, a closed set has all of its node operands. */
  predicate Closed(g: Graph, nodes: set<NodeId>)
  {
    forall n, o :: n in nodes && n in g && o in g[n] && o.Node? ==> o.node in nodes
  }

  lemma {:induction false} ClosedAlongPath(g: Graph, nodes: set<NodeId>, path: seq<NodeId>)
    requires Closed(g, nodes) && IsPath(g, path) && path[0] in nodes
    ensures path[|path| - 1] in nodes
    decreases |path|
  {
    if |path| > 1 {
      var init := path[..|path| - 1];
      assert forall i :: 0 < i < |init| ==> IsEdge(g, path, i) ==> IsEdge(g, init, i);
      ClosedAlongPath(g, nodes, init);
      assert IsEdge(g, path, |path| - 1);
    }
  }

  lemma ReachesItself(g: Graph, n: NodeId)
    requires n in g
    ensures Reaches(g, n, n)
  {
    assert IsPath(g, [n]);
  }

  lemma ReachesOperand(g: Graph, roots: set<NodeId>, n: NodeId, o: NodeId)
    requires ReachedFrom(g, roots, n) && n in g && Node(o) in g[n]
    ensures ReachedFrom(g, roots, o)
  {
    var root :| root in roots && Reaches(g, root, n);
    var path :| IsPath(g, path) && path[0] == root && path[|path| - 1] == n;
    var longer := path + [o];
    forall i | 0 < i < |longer| ensures IsEdge(g, longer, i) {
      if i < |path| { assert IsEdge(g, path, i); }
    }
    assert IsPath(g, longer) && longer[0] == root && longer[|longer| - 1] == o;
    assert Reaches(g, root, o);
  }

  // ----- the values -----

  /** What the type lowering says of types and of values with converted types. */
  datatype Lowering = Lowering(typeOf: Value -> Type, convertType: Type -> Type, getValue: Value -> Value)

  /** The replacement of a value has the converted type, and converting a type again changes nothing. */
  ghost predicate Consistent(l: Lowering)
  {
    && (forall v :: l.typeOf(l.getValue(v)) == l.convertType(l.typeOf(v)))
    && (forall t :: l.convertType(l.convertType(t)) == l.convertType(t))
  }

  function Updated(l: Lowering, v: Value): Value
  {
    if l.convertType(l.typeOf(v)) == l.typeOf(v) then v else l.getValue(v)
  }

  lemma UpdatedTwice(l: Lowering, v: Value)
    requires Consistent(l)
    ensures Updated(l, Updated(l, v)) == Updated(l, v)
  {
    assert l.typeOf(l.getValue(v)) == l.convertType(l.typeOf(v));
    assert l.convertType(l.convertType(l.typeOf(v))) == l.convertType(l.typeOf(v));
  }

  /** The mentioned value metadata refer to the updated values, and the others to the original ones. */
  ghost predicate UpdatedExactly(g: Graph, l: Lowering, original: map<ValueMdId, Value>, values: map<ValueMdId, Value>, done: iset<ValueMdId>)
  {
    && values.Keys == original.Keys
    && forall md :: md in original ==> values[md] == if md in done then Updated(l, original[md]) else original[md]
  }

  predicate NoDuplicates(s: seq<NodeId>)
  {
    forall i, j :: 0 <= i < j < |s| ==> s[i] != s[j]
  }

  // ----- what has been looked at -----

  /** How many operands of the expanded node number `i` have been looked at: all, or `k` of the last one. */
  function Limit(g: Graph, expanded: seq<NodeId>, k: nat, i: nat): nat
    requires i < |expanded|
  {
    if i == |expanded| - 1 then k else if expanded[i] in g then |g[expanded[i]]| else 0
  }

  predicate LookedAt(g: Graph, expanded: seq<NodeId>, k: nat, i: nat, j: nat)
  {
    i < |expanded| && expanded[i] in g && j < |g[expanded[i]]| && j < Limit(g, expanded, k, i)
  }

  ghost predicate Seen(g: Graph, expanded: seq<NodeId>, k: nat, md: ValueMdId)
  {
    exists i: nat, j: nat :: LookedAt(g, expanded, k, i, j) && g[expanded[i]][j] == ValueMd(md)
  }

  /** Every node is expanded once; what has been processed is reachable; the node operands seen so far have been processed. */
  ghost predicate Working(g: Graph, roots: set<NodeId>, processed: set<NodeId>, expanded: seq<NodeId>, worklist: seq<NodeId>, k: nat)
  {
    && processed <= g.Keys
    && NoDuplicates(expanded + worklist)
    && (forall n :: n in processed <==> n in expanded || n in worklist)
    && (forall n :: n in processed ==> ReachedFrom(g, roots, n))
    && (forall i: nat, j: nat :: LookedAt(g, expanded, k, i, j) && g[expanded[i]][j].Node? ==> g[expanded[i]][j].node in processed)
  }

  ghost predicate UpdatedSeen(g: Graph, l: Lowering, original: map<ValueMdId, Value>, values: map<ValueMdId, Value>, expanded: seq<NodeId>, k: nat)
  {
    && values.Keys == original.Keys
    && forall md :: md in original ==> values[md] == if Seen(g, expanded, k, md) then Updated(l, original[md]) else original[md]
  }

  /** The operands of the last expanded node. */
  function LastCount(g: Graph, expanded: seq<NodeId>): nat
  {
    if expanded != [] && expanded[|expanded| - 1] in g then |g[expanded[|expanded| - 1]]| else 0
  }

  lemma Added(g: Graph, roots: set<NodeId>, processed: set<NodeId>, expanded: seq<NodeId>, worklist: seq<NodeId>, k: nat, n: NodeId)
    requires Working(g, roots, processed, expanded, worklist, k) && n in g && n !in processed && ReachedFrom(g, roots, n)
    ensures Working(g, roots, processed + {n}, expanded, worklist + [n], k)
  {
    hide ReachedFrom;
    hide LookedAt;
    assert expanded + (worklist + [n]) == (expanded + worklist) + [n];
    assert forall x :: x in expanded + worklist <==> x in expanded || x in worklist;
  }

  /** The last node of the worklist is expanded next. */
  lemma Popped(g: Graph, roots: set<NodeId>, processed: set<NodeId>, expanded: seq<NodeId>, worklist: seq<NodeId>, n: NodeId)
    requires Working(g, roots, processed, expanded, worklist + [n], LastCount(g, expanded))
    ensures Working(g, roots, processed, expanded + [n], worklist, 0)
    ensures n in g && n in processed
  {
    hide ReachedFrom;
    var before, after := expanded + (worklist + [n]), (expanded + [n]) + worklist;
    forall i, j | 0 <= i < j < |after| ensures after[i] != after[j] {
      assert after[i] == before[MovedTo(|expanded|, |worklist|, i)] && after[j] == before[MovedTo(|expanded|, |worklist|, j)];
    }
    forall i: nat, j: nat | LookedAt(g, expanded + [n], 0, i, j) ensures LookedAt(g, expanded, LastCount(g, expanded), i, j) {
    }
  }

  /** Starting from one more root. */
  lemma RootAdded(g: Graph, roots: set<NodeId>, processed: set<NodeId>, expanded: seq<NodeId>, k: nat, n: NodeId)
    requires Working(g, roots, processed, expanded, [], k) && n in g
    ensures Working(g, roots + {n}, processed + {n}, expanded, if n in processed then [] else [n], k)
  {
    hide Reaches;
    hide LookedAt;
    hide NoDuplicates;
    forall m | m in processed ensures ReachedFrom(g, roots + {n}, m) {
      var root :| root in roots && Reaches(g, root, m);
      assert root in roots + {n};
    }
    hide ReachedFrom;
    if n in processed {
      assert processed + {n} == processed;
    } else {
      RootReached(g, roots, n);
      Added(g, roots + {n}, processed, expanded, [], k, n);
      assert [] + [n] == [n];
    }
  }

  lemma RootReached(g: Graph, roots: set<NodeId>, n: NodeId)
    requires n in g
    ensures ReachedFrom(g, roots + {n}, n)
  {
    ReachesItself(g, n);
    assert n in roots + {n};
  }

  /** Between calls, everything expanded has been looked at. */
  lemma LookedAtAll(g: Graph, expanded: seq<NodeId>, i: nat, j: nat)
    ensures LookedAt(g, expanded, LastCount(g, expanded), i, j) <==> i < |expanded| && expanded[i] in g && j < |g[expanded[i]]|
  {
  }

  lemma WorkingClosed(g: Graph, roots: set<NodeId>, processed: set<NodeId>, expanded: seq<NodeId>)
    requires Working(g, roots, processed, expanded, [], LastCount(g, expanded))
    ensures Closed(g, processed)
  {
    hide ReachedFrom;
    hide NoDuplicates;
    hide LookedAt;
    forall n, o | n in processed && n in g && o in g[n] && o.Node? ensures o.node in processed {
      var i :| 0 <= i < |expanded| && expanded[i] == n;
      var j :| 0 <= j < |g[n]| && g[n][j] == o;
      LookedAtAll(g, expanded, i, j);
    }
  }

  lemma SeenExactly(g: Graph, expanded: seq<NodeId>, md: ValueMdId)
    ensures Seen(g, expanded, LastCount(g, expanded), md) <==> exists n :: n in expanded && n in g && ValueMd(md) in g[n]
  {
    if Seen(g, expanded, LastCount(g, expanded), md) {
      var i: nat, j: nat :| LookedAt(g, expanded, LastCount(g, expanded), i, j) && g[expanded[i]][j] == ValueMd(md);
      LookedAtAll(g, expanded, i, j);
      assert ValueMd(md) in g[expanded[i]];
    }
    if n :| n in expanded && n in g && ValueMd(md) in g[n] {
      var i :| 0 <= i < |expanded| && expanded[i] == n;
      var j :| 0 <= j < |g[n]| && g[n][j] == ValueMd(md);
      LookedAtAll(g, expanded, i, j);
    }
  }

  lemma CurrentIsReached(g: Graph, roots: set<NodeId>, processed: set<NodeId>, expanded: seq<NodeId>, worklist: seq<NodeId>, k: nat, o: NodeId)
    requires Working(g, roots, processed, expanded, worklist, k) && expanded != []
    requires expanded[|expanded| - 1] in g && Node(o) in g[expanded[|expanded| - 1]]
    ensures ReachedFrom(g, roots, o)
  {
    hide LookedAt;
    hide NoDuplicates;
    assert expanded[|expanded| - 1] in expanded;
    ReachesOperand(g, roots, expanded[|expanded| - 1], o);
  }

  lemma UpdatedPopped(g: Graph, l: Lowering, original: map<ValueMdId, Value>, values: map<ValueMdId, Value>, expanded: seq<NodeId>, n: NodeId)
    requires UpdatedSeen(g, l, original, values, expanded, LastCount(g, expanded))
    ensures UpdatedSeen(g, l, original, values, expanded + [n], 0)
  {
    hide Seen;
    forall md | md in original ensures Seen(g, expanded + [n], 0, md) <==> Seen(g, expanded, LastCount(g, expanded), md) {
      SeenPopped(g, expanded, n, md);
    }
  }

  lemma UpdatedNext(g: Graph, l: Lowering, original: map<ValueMdId, Value>, values: map<ValueMdId, Value>, expanded: seq<NodeId>, k: nat,
                    later: map<ValueMdId, Value>)
    requires UpdatedSeen(g, l, original, values, expanded, k) && Consistent(l)
    requires expanded != [] && expanded[|expanded| - 1] in g && k < |g[expanded[|expanded| - 1]]|
    requires var o := g[expanded[|expanded| - 1]][k];
             if o.ValueMd? then o.md in values && later == values[o.md := Updated(l, values[o.md])] else later == values
    ensures UpdatedSeen(g, l, original, later, expanded, k + 1)
  {
    hide Seen;
    hide Updated;
    hide Consistent;
    forall md | md in original
      ensures later[md] == if Seen(g, expanded, k + 1, md) then Updated(l, original[md]) else original[md]
    {
      SeenNext(g, expanded, k, md);
      UpdatedTwice(l, original[md]);
    }
  }

  function MovedTo(e: nat, w: nat, i: nat): nat
  {
    if i < e then i else if i == e then e + w else i - 1
  }

  lemma SeenPopped(g: Graph, expanded: seq<NodeId>, n: NodeId, md: ValueMdId)
    ensures Seen(g, expanded + [n], 0, md) <==> Seen(g, expanded, LastCount(g, expanded), md)
  {
    forall i: nat, j: nat
      ensures LookedAt(g, expanded + [n], 0, i, j) <==> LookedAt(g, expanded, LastCount(g, expanded), i, j)
    {
    }
  }

  lemma SeenNext(g: Graph, expanded: seq<NodeId>, k: nat, md: ValueMdId)
    requires expanded != [] && expanded[|expanded| - 1] in g && k < |g[expanded[|expanded| - 1]]|
    ensures Seen(g, expanded, k + 1, md) <==> Seen(g, expanded, k, md) || g[expanded[|expanded| - 1]][k] == ValueMd(md)
  {
    var last := |expanded| - 1;
    forall i: nat, j: nat
      ensures LookedAt(g, expanded, k + 1, i, j) <==> LookedAt(g, expanded, k, i, j) || (i == last && j == k)
    {
    }
    if g[expanded[last]][k] == ValueMd(md) { assert LookedAt(g, expanded, k + 1, last, k); }
  }

  lemma WorkingNext(g: Graph, roots: set<NodeId>, processed: set<NodeId>, expanded: seq<NodeId>, worklist: seq<NodeId>, k: nat)
    requires Working(g, roots, processed, expanded, worklist, k)
    requires expanded != [] && expanded[|expanded| - 1] in g && k < |g[expanded[|expanded| - 1]]|
    requires var o := g[expanded[|expanded| - 1]][k]; o.Node? ==> o.node in processed
    ensures Working(g, roots, processed, expanded, worklist, k + 1)
  {
    hide ReachedFrom;
    hide NoDuplicates;
  }

  class MetadataUpdater {
    const graph: Graph
    const lowering: Lowering
    ghost const original: map<ValueMdId, Value>
    /** The value that each value metadata refers to. */
    var values: map<ValueMdId, Value>
    var worklist: seq<NodeId>
    var processed: set<NodeId>
    ghost var roots: set<NodeId>
    /** The nodes in the order in which their operands have been looked at. */
    ghost var expanded: seq<NodeId>

    ghost predicate Fits()
    {
      WellFormed(graph) && Consistent(lowering) && forall n, o :: n in graph && o in graph[n] && o.ValueMd? ==> o.md in original
    }

    ghost predicate Valid()
      reads this
    {
      && Fits() && worklist == [] && roots <= processed
      && Working(graph, roots, processed, expanded, [], LastCount(graph, expanded))
      && UpdatedSeen(graph, lowering, original, values, expanded, LastCount(graph, expanded))
    }

    constructor (g: Graph, l: Lowering, v: map<ValueMdId, Value>)
      requires WellFormed(g) && Consistent(l) && forall n, o :: n in g && o in g[n] && o.ValueMd? ==> o.md in v
      ensures Valid() && graph == g && lowering == l && original == v && roots == {} && processed == {}
    {
      graph := g;
      lowering := l;
      original := v;
      values := v;
      worklist := [];
      processed := {};
      roots := {};
      expanded := [];
    }

    /** Exactly the nodes reachable from the roots have been processed, and each has been expanded once. */
    lemma ProcessedExactly(n: NodeId)
      requires Valid()
      ensures n in processed <==> ReachedFrom(graph, roots, n)
      ensures n in processed <==> n in expanded
      ensures NoDuplicates(expanded)
    {
      hide LookedAt;
      hide Fits;
      hide UpdatedSeen;
      assert expanded + [] == expanded;
      if ReachedFrom(graph, roots, n) {
        var root :| root in roots && Reaches(graph, root, n);
        var path :| IsPath(graph, path) && path[0] == root && path[|path| - 1] == n;
        WorkingClosed(graph, roots, processed, expanded);
        ClosedAlongPath(graph, processed, path);
      }
    }

    /** Exactly the value metadata mentioned by reachable nodes have been updated. */
    lemma ValuesExactly(md: ValueMdId)
      requires Valid() && md in original
      ensures md in values
      ensures values[md] == if exists n :: ReachedFrom(graph, roots, n) && n in graph && ValueMd(md) in graph[n]
                            then Updated(lowering, original[md]) else original[md]
      ensures values[md] == if (exists n :: ReachedFrom(graph, roots, n) && n in graph && ValueMd(md) in graph[n]) &&
                               lowering.convertType(lowering.typeOf(original[md])) != lowering.typeOf(original[md])
                            then lowering.getValue(original[md]) else original[md]
    {
      hide ReachedFrom;
      hide Working;
      hide Seen;
      hide Fits;
      forall n ensures n in expanded <==> ReachedFrom(graph, roots, n) { ProcessedExactly(n); }
      SeenExactly(graph, expanded, md);
    }

    method ProcessValueMd(md: ValueMdId)
      requires md in values
      modifies this`values
      ensures values == old(values)[md := Updated(lowering, old(values)[md])]
      ensures lowering.convertType(lowering.typeOf(old(values)[md])) == lowering.typeOf(old(values)[md]) ==> values == old(values)
      ensures lowering.convertType(lowering.typeOf(old(values)[md])) != lowering.typeOf(old(values)[md]) ==>
                values == old(values)[md := lowering.getValue(old(values)[md])]
    {
      var oldValue := values[md];
      var ty := lowering.convertType(lowering.typeOf(oldValue));
      if ty == lowering.typeOf(oldValue) {
        assert values == values[md := oldValue];
        return;
      }
      var newValue := lowering.getValue(oldValue);
      if newValue != oldValue {
        values := values[md := newValue];
      } else {
        assert values == values[md := oldValue];
      }
    }

    method AddToWorklist(node: NodeId)
      modifies this`worklist, this`processed
      ensures processed == old(processed) + {node}
      ensures worklist == if node in old(processed) then old(worklist) else old(worklist) + [node]
    {
      if node !in processed {
        processed := processed + {node};
        worklist := worklist + [node];
      }
    }

    /** Everything that is reachable from the node and has not been processed before.  It terminates for cyclic graphs too,
        because every step shortens the worklist or adds to the processed nodes. */
    method ProcessNode(node: NodeId)
      requires Valid() && node in graph
      modifies this
      ensures Valid() && roots == old(roots) + {node}
    {
      hide Working;
      hide UpdatedSeen;
      hide Fits;
      RootAdded(graph, roots, processed, expanded, LastCount(graph, expanded), node);
      roots := roots + {node};
      AddToWorklist(node);
      assert [] + [node] == [node];
      InGraph(graph, roots, processed, expanded, worklist, LastCount(graph, expanded));
      while worklist != []
        invariant Fits() && roots == old(roots) + {node}
        invariant roots <= processed <= graph.Keys
        invariant Working(graph, roots, processed, expanded, worklist, LastCount(graph, expanded))
        invariant UpdatedSeen(graph, lowering, original, values, expanded, LastCount(graph, expanded))
        decreases graph.Keys - processed, |worklist|
      {
        ghost var before := processed;
        var curNode := worklist[|worklist| - 1];
        assert worklist == worklist[..|worklist| - 1] + [curNode];
        Popped(graph, roots, processed, expanded, worklist[..|worklist| - 1], curNode);
        UpdatedPopped(graph, lowering, original, values, expanded, curNode);
        worklist := worklist[..|worklist| - 1];
        ghost var rest := worklist;
        expanded := expanded + [curNode];
        var i := 0;
        while i < |graph[curNode]|
          invariant 0 <= i <= |graph[curNode]|
          invariant Fits() && roots == old(roots) + {node} && expanded != [] && expanded[|expanded| - 1] == curNode
          invariant before <= processed <= graph.Keys && (processed == before ==> worklist == rest)
          invariant Working(graph, roots, processed, expanded, worklist, i)
          invariant UpdatedSeen(graph, lowering, original, values, expanded, i)
        {
          VisitOperand(curNode, i);
          i := i + 1;
        }
      }
    }

    /** One operand of the current node. */
    method VisitOperand(curNode: NodeId, i: nat)
      requires Fits() && curNode in graph && expanded != [] && expanded[|expanded| - 1] == curNode && i < |graph[curNode]|
      requires Working(graph, roots, processed, expanded, worklist, i)
      requires UpdatedSeen(graph, lowering, original, values, expanded, i)
      modifies this`worklist, this`processed, this`values
      ensures old(processed) <= processed <= graph.Keys && (processed == old(processed) ==> worklist == old(worklist))
      ensures Working(graph, roots, processed, expanded, worklist, i + 1)
      ensures UpdatedSeen(graph, lowering, original, values, expanded, i + 1)
    {
      hide Working;
      hide UpdatedSeen;
      hide ReachedFrom;
      var operand := graph[curNode][i];
      assert operand in graph[curNode];
      InGraph(graph, roots, processed, expanded, worklist, i);
      match operand {
        case Null =>
        case Node(n) =>
          CurrentIsReached(graph, roots, processed, expanded, worklist, i, n);
          if n !in processed { Added(graph, roots, processed, expanded, worklist, i, n); }
          AddToWorklist(n);
          assert n in old(processed) ==> processed == old(processed);
        case ValueMd(md) =>
          SameKeys(graph, lowering, original, values, expanded, i);
          ProcessValueMd(md);
        case Text =>
      }
      WorkingNext(graph, roots, processed, expanded, worklist, i);
      UpdatedNext(graph, lowering, original, old(values), expanded, i, values);
    }

    lemma InGraph(g: Graph, roots: set<NodeId>, processed: set<NodeId>, expanded: seq<NodeId>, worklist: seq<NodeId>, k: nat)
      requires Working(g, roots, processed, expanded, worklist, k)
      ensures processed <= g.Keys
    {
    }

    lemma SameKeys(g: Graph, l: Lowering, original: map<ValueMdId, Value>, values: map<ValueMdId, Value>, expanded: seq<NodeId>, k: nat)
      requires UpdatedSeen(g, l, original, values, expanded, k)
      ensures values.Keys == original.Keys
    {
    }

    /** The named metadata, and then the metadata of globals, functions and instructions. */
    method RunAll(nodes: seq<NodeId>)
      requires Valid() && forall n :: n in nodes ==> n in graph
      modifies this
      ensures Valid() && roots == old(roots) + set n | n in nodes
    {
      hide Working;
      hide UpdatedSeen;
      hide Fits;
      for i := 0 to |nodes|
        invariant Valid() && roots == old(roots) + set n | n in nodes[..i]
      {
        ProcessNode(nodes[i]);
        assert nodes[..i + 1] == nodes[..i] + [nodes[i]];
      }
      assert nodes[..|nodes|] == nodes;
    }
  }
}
