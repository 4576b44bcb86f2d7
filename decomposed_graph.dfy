/**
 * The graph a NOT/NOR genetic circuit is decomposed into: a list of nodes, a
 * list of leaf nodes, parent and child links labelled with an interaction
 * type, and a sort that walks from the leaves up towards the roots.
 *
 * Nodes are known by identity (`NodeId`). Each node's parent map and child
 * map are kept here, keyed by node, as lists of links in the order the maps
 * are iterated.
 */
module DecomposedGraphs {
  import opened Wrappers

  type NodeId = nat

  /** The interaction type a link carries, known by name. */
  datatype Interaction = Interaction(name: string)

  datatype Link = Link(node: NodeId, kind: Interaction)

  predicate Distinct<T(==)>(s: seq<T>)
  {
    forall i, j :: 0 <= i < j < |s| ==> s[i] != s[j]
  }

  // ---------------------------------------------------------------------
  // Lists without duplicates: addNode, addAllNodes, setNodeAsLeaf

  /** `list` with `n` appended unless it is already there. */
  function AddedOnce(list: seq<NodeId>, n: NodeId): (r: seq<NodeId>)
    ensures n in r && (forall x :: x in r <==> x in list || x == n)
    ensures Distinct(list) ==> Distinct(r)
    ensures |list| <= |r| && r[..|list|] == list
  {
    if n in list then list else list + [n]
  }

  /** Adding a node twice is adding it once. */
  lemma AddedOnceIdempotent(list: seq<NodeId>, n: NodeId)
    ensures AddedOnce(AddedOnce(list, n), n) == AddedOnce(list, n)
  {
  }

  /** `list` after adding each of `ns` once, in order. */
  function AddedAll(list: seq<NodeId>, ns: seq<NodeId>): (r: seq<NodeId>)
    decreases |ns|
  {
    if ns == [] then list else AddedAll(AddedOnce(list, ns[0]), ns[1..])
  }

  /** Adding several nodes keeps the list free of duplicates and leaves it holding the old nodes and the new ones, old ones first. */
  lemma {:induction false} AddedAllSpec(list: seq<NodeId>, ns: seq<NodeId>)
    ensures forall x :: x in AddedAll(list, ns) <==> x in list || x in ns
    ensures Distinct(list) ==> Distinct(AddedAll(list, ns))
    ensures |list| <= |AddedAll(list, ns)| && AddedAll(list, ns)[..|list|] == list
    decreases |ns|
  {
    if ns != [] {
      var l1 := AddedOnce(list, ns[0]);
      AddedAllSpec(l1, ns[1..]);
      forall x
        ensures x in AddedAll(list, ns) <==> x in list || x in ns
      {
        assert x in ns <==> x == ns[0] || x in ns[1..];
      }
      assert AddedAll(list, ns)[..|l1|][..|list|] == list;
    }
  }

  /** The nodes of `ns` added one at a time is the nodes of `ns[..k+1]`: adding one more extends the fold. */
  lemma {:induction false} AddedAllSnoc(list: seq<NodeId>, ns: seq<NodeId>, n: NodeId)
    ensures AddedAll(list, ns + [n]) == AddedOnce(AddedAll(list, ns), n)
    decreases |ns|
  {
    if ns != [] {
      assert (ns + [n])[1..] == ns[1..] + [n];
      AddedAllSnoc(AddedOnce(list, ns[0]), ns[1..], n);
    }
  }

  // ---------------------------------------------------------------------
  // A node's parent or child map, as links in iteration order

  /** The map's key set, in iteration order. */
  function Keys(ls: seq<Link>): (r: seq<NodeId>)
    ensures |r| == |ls| && forall i :: 0 <= i < |ls| ==> r[i] == ls[i].node
  {
    if ls == [] then [] else [ls[0].node] + Keys(ls[1..])
  }

  /** HashMap.get: the interaction recorded for `n`, if any. */
  function Get(ls: seq<Link>, n: NodeId): Option<Interaction>
  {
    if ls == [] then None else if ls[0].node == n then Some(ls[0].kind) else Get(ls[1..], n)
  }

  /** HashMap.put: `n` now maps to `k`; an existing key keeps its place, a new one goes last. */
  function Put(ls: seq<Link>, n: NodeId, k: Interaction): (r: seq<Link>)
    ensures Get(r, n) == Some(k)
    ensures forall m :: m != n ==> Get(r, m) == Get(ls, m)
  {
    if ls == [] then [Link(n, k)]
    else if ls[0].node == n then [Link(n, k)] + ls[1..]
    else [ls[0]] + Put(ls[1..], n, k)
  }

  /** A key is in the map exactly when Get finds it. */
  lemma {:induction false} KeysGet(ls: seq<Link>, m: NodeId)
    ensures m in Keys(ls) <==> Get(ls, m).Some?
  {
    if ls != [] {
      KeysGet(ls[1..], m);
      assert Keys(ls) == [ls[0].node] + Keys(ls[1..]);
    }
  }

  /** Put adds at most its own key, so the keys stay free of duplicates. */
  lemma {:induction false} PutKeys(ls: seq<Link>, n: NodeId, k: Interaction)
    ensures forall m :: m in Keys(Put(ls, n, k)) <==> m in Keys(ls) || m == n
    ensures Distinct(Keys(ls)) ==> Distinct(Keys(Put(ls, n, k)))
  {
    var r := Put(ls, n, k);
    forall m
      ensures m in Keys(r) <==> m in Keys(ls) || m == n
    {
      KeysGet(r, m);
      KeysGet(ls, m);
    }
    if ls != [] && ls[0].node != n {
      PutKeys(ls[1..], n, k);
      var t := Keys(Put(ls[1..], n, k));
      assert Keys(r) == [ls[0].node] + t;
      assert Keys(ls) == [ls[0].node] + Keys(ls[1..]);
      if Distinct(Keys(ls)) {
        assert Distinct(Keys(ls[1..]));
        assert ls[0].node !in Keys(ls[1..]);
        assert ls[0].node !in t;
        forall i, j | 0 <= i < j < |Keys(r)|
          ensures Keys(r)[i] != Keys(r)[j]
        {
          if i == 0 {
            assert Keys(r)[j] == t[j - 1];
          } else {
            assert Keys(r)[i] == t[i - 1] && Keys(r)[j] == t[j - 1];
          }
        }
      }
    }
  }

  /** A node's map: empty for a node that was never linked. */
  function Lookup(links: map<NodeId, seq<Link>>, n: NodeId): seq<Link>
  {
    if n in links then links[n] else []
  }

  /** Each node's links name every node at most once. */
  ghost predicate KeyedOnce(links: map<NodeId, seq<Link>>)
  {
    forall n :: n in links ==> Distinct(Keys(links[n]))
  }

  /** The parent map mirrors the child map: p links to c with a type exactly when c links back to p with it. */
  ghost predicate Mirrored(childLinks: map<NodeId, seq<Link>>, parentLinks: map<NodeId, seq<Link>>)
  {
    forall p, c :: Get(Lookup(childLinks, p), c) == Get(Lookup(parentLinks, c), p)
  }

  /** Linking `child` under `parent` in both maps keeps them mirrored and each node's links distinct. */
  lemma LinkBoth(childLinks: map<NodeId, seq<Link>>, parentLinks: map<NodeId, seq<Link>>, parent: NodeId, child: NodeId,
                 kind: Interaction)
    requires KeyedOnce(childLinks) && KeyedOnce(parentLinks) && Mirrored(childLinks, parentLinks)
    ensures var cl := childLinks[parent := Put(Lookup(childLinks, parent), child, kind)];
            var pl := parentLinks[child := Put(Lookup(parentLinks, child), parent, kind)];
            KeyedOnce(cl) && KeyedOnce(pl) && Mirrored(cl, pl)
  {
    PutKeys(Lookup(childLinks, parent), child, kind);
    PutKeys(Lookup(parentLinks, child), parent, kind);
    var cl := childLinks[parent := Put(Lookup(childLinks, parent), child, kind)];
    var pl := parentLinks[child := Put(Lookup(parentLinks, child), parent, kind)];
    forall p, c
      ensures Get(Lookup(cl, p), c) == Get(Lookup(pl, c), p)
    {
      assert Get(Lookup(childLinks, p), c) == Get(Lookup(parentLinks, c), p);
    }
  }

  // ---------------------------------------------------------------------
  // One processed node's parents (the inner loop of topologicalSort)

  /**
   * The sorted list and the queue after examining the parents `ps` of the
   * processed node `c`, in order:
   * - a parent with one child is queued, and no later parent is examined;
   * - a parent with two children is queued when both are sorted;
   * - when `c` is one of its two children and the other is unsorted but
   *   queued, that other child is sorted at once and the parent queued;
   * - when `c` is one of them and the other is neither, the parent is queued;
   * - when `c` is neither child, `c` itself is queued again;
   * - a parent with any other number of children is skipped.
   */
  function ParentStep(children: map<NodeId, seq<Link>>, sorted: seq<NodeId>, queue: seq<NodeId>,
                      c: NodeId, ps: seq<NodeId>): (seq<NodeId>, seq<NodeId>)
    decreases |ps|
  {
    if ps == [] then (sorted, queue)
    else
      var p := ps[0];
      var kids := Keys(Lookup(children, p));
      if |kids| == 1 then (sorted, queue + [p])
      else if |kids| == 2 then
        var c1, c2 := kids[0], kids[1];
        if c1 in sorted && c2 in sorted then ParentStep(children, sorted, queue + [p], c, ps[1..])
        else if c1 == c || c2 == c then
          var temp: Option<NodeId> :=
            if c1 in sorted && c2 !in sorted then Some(c2)
            else if c2 in sorted && c1 !in sorted then Some(c1)
            else None;
          if temp.Some? && temp.value in queue then ParentStep(children, sorted + [temp.value], queue + [p], c, ps[1..])
          else ParentStep(children, sorted, queue + [p], c, ps[1..])
        else ParentStep(children, sorted, queue + [c], c, ps[1..])
      else ParentStep(children, sorted, queue, c, ps[1..])
  }

  /**
   * What one node's parents can do to the two lists: the sorted list only
   * grows, by at most the parents' count of nodes taken from the queue and
   * never by a node already sorted; the queue only gains `c` and parents.
   */
  lemma {:induction false} ParentStepFacts(children: map<NodeId, seq<Link>>, sorted: seq<NodeId>, queue: seq<NodeId>,
                                           c: NodeId, ps: seq<NodeId>)
    ensures |sorted| <= |ParentStep(children, sorted, queue, c, ps).0|
    ensures ParentStep(children, sorted, queue, c, ps).0[..|sorted|] == sorted
    ensures forall x :: x in ParentStep(children, sorted, queue, c, ps).0 ==> x in sorted || x in queue || x == c || x in ps
    ensures Distinct(sorted) ==> Distinct(ParentStep(children, sorted, queue, c, ps).0)
    ensures forall x :: x in ParentStep(children, sorted, queue, c, ps).1 ==> x in queue || x == c || x in ps
    decreases |ps|
  {
    if ps != [] {
      var p := ps[0];
      var kids := Keys(Lookup(children, p));
      if |kids| == 2 {
        var c1, c2 := kids[0], kids[1];
        if !(c1 in sorted && c2 in sorted) && (c1 == c || c2 == c) {
          var temp: Option<NodeId> :=
            if c1 in sorted && c2 !in sorted then Some(c2)
            else if c2 in sorted && c1 !in sorted then Some(c1)
            else None;
          if temp.Some? && temp.value in queue {
            var s1 := sorted + [temp.value];
            ParentStepFacts(children, s1, queue + [p], c, ps[1..]);
            var r := ParentStep(children, s1, queue + [p], c, ps[1..]).0;
            assert r[..|s1|][..|sorted|] == sorted;
            return;
          }
        }
        if c1 in sorted && c2 in sorted {
          ParentStepFacts(children, sorted, queue + [p], c, ps[1..]);
        } else if c1 == c || c2 == c {
          ParentStepFacts(children, sorted, queue + [p], c, ps[1..]);
        } else {
          ParentStepFacts(children, sorted, queue + [c], c, ps[1..]);
        }
      } else if |kids| != 1 {
        ParentStepFacts(children, sorted, queue, c, ps[1..]);
      }
    }
  }

  /**
   * A parent with exactly one child ends the inner loop: it is queued and the
   * parents after it make no difference.
   */
  lemma {:induction false} ParentStepStopsAtSingleChild(children: map<NodeId, seq<Link>>, sorted: seq<NodeId>, queue: seq<NodeId>,
                                                        c: NodeId, pre: seq<NodeId>, p: NodeId, post1: seq<NodeId>, post2: seq<NodeId>)
    requires |Keys(Lookup(children, p))| == 1
    ensures ParentStep(children, sorted, queue, c, pre + [p] + post1) == ParentStep(children, sorted, queue, c, pre + [p] + post2)
    ensures ParentStep(children, sorted, queue, c, [p] + post1) == (sorted, queue + [p])
    decreases |pre|
  {
    if pre != [] {
      assert (pre + [p] + post1)[0] == pre[0] && (pre + [p] + post1)[1..] == pre[1..] + [p] + post1;
      assert (pre + [p] + post2)[0] == pre[0] && (pre + [p] + post2)[1..] == pre[1..] + [p] + post2;
      var q := pre[0];
      var kids := Keys(Lookup(children, q));
      if |kids| == 2 {
        var c1, c2 := kids[0], kids[1];
        var temp: Option<NodeId> :=
          if c1 in sorted && c2 !in sorted then Some(c2)
          else if c2 in sorted && c1 !in sorted then Some(c1)
          else None;
        ParentStepStopsAtSingleChild(children, sorted, queue + [q], c, pre[1..], p, post1, post2);
        ParentStepStopsAtSingleChild(children, sorted, queue + [c], c, pre[1..], p, post1, post2);
        if temp.Some? {
          ParentStepStopsAtSingleChild(children, sorted + [temp.value], queue + [q], c, pre[1..], p, post1, post2);
        }
      } else if |kids| != 1 {
        ParentStepStopsAtSingleChild(children, sorted, queue, c, pre[1..], p, post1, post2);
      }
    } else {
      assert [p] + post1 == pre + [p] + post1 && [p] + post2 == pre + [p] + post2;
    }
  }

  ghost function Elems(s: seq<NodeId>): set<NodeId>
  {
    set x | x in s
  }

  /** Sorting one more node of the universe leaves fewer of it unsorted. */
  lemma SmallerRemainder(U: set<NodeId>, before: seq<NodeId>, after: seq<NodeId>, c: NodeId)
    requires |before| < |after| && after[..|before| + 1] == before + [c]
    requires c in U && c !in before
    ensures U - Elems(after) < U - Elems(before)
  {
    assert c in after by {
      assert after[..|before| + 1][|before|] == c;
    }
    forall x | x in before
      ensures x in after
    {
      var i :| 0 <= i < |before| && before[i] == x;
      assert after[..|before| + 1][i] == x;
    }
    assert c in U - Elems(before);
  }

  class DecomposedGraph {
    var outputNode: Option<NodeId>
    var nodeList: seq<NodeId>
    var leafNodeList: seq<NodeId>
    /** Each node's child map: child and interaction type. */
    var childLinks: map<NodeId, seq<Link>>
    /** Each node's parent map: parent and interaction type. */
    var parentLinks: map<NodeId, seq<Link>>

    /** `b` is a parent or a child of `a`. */
    predicate Linked(a: NodeId, b: NodeId)
      reads this
    {
      b in Keys(Lookup(parentLinks, a)) || b in Keys(Lookup(childLinks, a))
    }

    /** `p` leads from a leaf to `x` through parent and child links. */
    ghost predicate IsPath(p: seq<NodeId>, x: NodeId)
      reads this
    {
      |p| >= 1 && p[0] in leafNodeList && p[|p| - 1] == x
      && forall i :: 0 <= i < |p| - 1 ==> Linked(p[i], p[i + 1])
    }

    ghost predicate Reachable(x: NodeId)
      reads this
    {
      exists p :: IsPath(p, x)
    }

    /** Every child link is matched by a parent link with the same type, and the other way round. */
    ghost predicate Symmetric()
      reads this
    {
      Mirrored(childLinks, parentLinks)
    }

    ghost predicate Valid()
      reads this
    {
      Distinct(nodeList) && Distinct(leafNodeList)
      && KeyedOnce(childLinks) && KeyedOnce(parentLinks)
      && Symmetric()
    }

    constructor ()
      ensures Valid() && nodeList == [] && leafNodeList == [] && childLinks == map[] && parentLinks == map[]
      ensures outputNode == None
    {
      outputNode := None;
      nodeList := [];
      leafNodeList := [];
      childLinks := map[];
      parentLinks := map[];
    }

    method SetNodeAsOutput(n: NodeId)
      modifies this
      ensures outputNode == Some(n)
      ensures nodeList == old(nodeList) && leafNodeList == old(leafNodeList)
      ensures childLinks == old(childLinks) && parentLinks == old(parentLinks)
    {
      outputNode := Some(n);
    }

    /** setNodeAsLeaf: the leaf list gains `n` unless it already holds it. */
    method SetNodeAsLeaf(n: NodeId)
      requires Valid()
      modifies this
      ensures Valid()
      ensures leafNodeList == AddedOnce(old(leafNodeList), n)
      ensures nodeList == old(nodeList) && outputNode == old(outputNode)
      ensures childLinks == old(childLinks) && parentLinks == old(parentLinks)
    {
      if n in leafNodeList {
        return;
      }
      leafNodeList := leafNodeList + [n];
    }

    /** addNode: the node list gains `n` unless it already holds it. */
    method AddNode(n: NodeId)
      requires Valid()
      modifies this
      ensures Valid()
      ensures nodeList == AddedOnce(old(nodeList), n)
      ensures leafNodeList == old(leafNodeList) && outputNode == old(outputNode)
      ensures childLinks == old(childLinks) && parentLinks == old(parentLinks)
    {
      if n !in nodeList {
        nodeList := nodeList + [n];
      }
    }

    /** addAllNodes: addNode on each argument in order. */
    method AddAllNodes(ns: seq<NodeId>)
      requires Valid()
      modifies this
      ensures Valid()
      ensures nodeList == AddedAll(old(nodeList), ns)
      ensures leafNodeList == old(leafNodeList) && outputNode == old(outputNode)
      ensures childLinks == old(childLinks) && parentLinks == old(parentLinks)
    {
      var k := 0;
      while k < |ns|
        invariant 0 <= k <= |ns|
        invariant Valid()
        invariant AddedAll(nodeList, ns[k..]) == AddedAll(old(nodeList), ns)
        invariant leafNodeList == old(leafNodeList) && outputNode == old(outputNode)
        invariant childLinks == old(childLinks) && parentLinks == old(parentLinks)
      {
        assert ns[k..][1..] == ns[k + 1..];
        AddNode(ns[k]);
        k := k + 1;
      }
    }

    /** addNodeRelationship: the child goes into the parent's child map and the parent into the child's parent map, with the same type. */
    method AddNodeRelationship(parent: NodeId, child: NodeId, kind: Interaction)
      requires Valid()
      modifies this
      ensures Valid()
      ensures childLinks == old(childLinks)[parent := Put(Lookup(old(childLinks), parent), child, kind)]
      ensures parentLinks == old(parentLinks)[child := Put(Lookup(old(parentLinks), child), parent, kind)]
      ensures Get(Lookup(childLinks, parent), child) == Some(kind) && Get(Lookup(parentLinks, child), parent) == Some(kind)
      ensures nodeList == old(nodeList) && leafNodeList == old(leafNodeList) && outputNode == old(outputNode)
    {
      LinkBoth(childLinks, parentLinks, parent, child, kind);
      childLinks := childLinks[parent := Put(Lookup(childLinks, parent), child, kind)];
      parentLinks := parentLinks[child := Put(Lookup(parentLinks, child), parent, kind)];
    }

    /** Every node a parent map or a leaf list names: the nodes the sort can reach. */
    ghost function Universe(): set<NodeId>
      reads this
    {
      (set x | x in leafNodeList)
      + (set n, i | n in parentLinks && 0 <= i < |parentLinks[n]| :: parentLinks[n][i].node)
    }

    /** The inner loop of topologicalSort over the parents of `c`, in the parent map's order. */
    method ProcessParents(c: NodeId, sorted0: seq<NodeId>, queue0: seq<NodeId>) returns (sorted: seq<NodeId>, queue: seq<NodeId>)
      ensures (sorted, queue) == ParentStep(childLinks, sorted0, queue0, c, Keys(Lookup(parentLinks, c)))
    {
      var ps := Keys(Lookup(parentLinks, c));
      sorted, queue := sorted0, queue0;
      var k := 0;
      while k < |ps|
        invariant 0 <= k <= |ps|
        invariant ParentStep(childLinks, sorted0, queue0, c, ps) == ParentStep(childLinks, sorted, queue, c, ps[k..])
      {
        var p := ps[k];
        var kids := Keys(Lookup(childLinks, p));
        assert ps[k..][0] == p && ps[k..][1..] == ps[k + 1..];
        if |kids| == 1 {
          queue := queue + [p];
          return;
        } else if |kids| == 2 {
          var c1, c2 := kids[0], kids[1];
          if c1 in sorted && c2 in sorted {
            queue := queue + [p];
          } else if c1 == c || c2 == c {
            var temp: Option<NodeId> := None;
            if c1 in sorted && c2 !in sorted {
              temp := Some(c2);
            } else if c2 in sorted && c1 !in sorted {
              temp := Some(c1);
            }
            if temp.Some? && temp.value in queue {
              sorted := sorted + [temp.value];
              queue := queue + [p];
            } else {
              queue := queue + [p];
            }
          } else {
            queue := queue + [c];
          }
        }
        k := k + 1;
      }
    }

    /** The parents of `c` are in the universe, and each is linked to `c`. */
    lemma ParentsInUniverse(c: NodeId)
      ensures forall p :: p in Keys(Lookup(parentLinks, c)) ==> p in Universe() && Linked(c, p)
    {
      forall p | p in Keys(Lookup(parentLinks, c))
        ensures p in Universe()
      {
        var ls := Lookup(parentLinks, c);
        var i :| 0 <= i < |ls| && Keys(ls)[i] == p;
        assert parentLinks[c][i].node == p;
      }
    }

    /**
     * What the sort keeps true of its lists: the sorted list has no
     * duplicates; every queued or sorted node lies in the universe `U` and
     * has a path from a leaf, recorded in `paths`.
     */
    ghost predicate SortInv(sorted: seq<NodeId>, queue: seq<NodeId>, paths: map<NodeId, seq<NodeId>>, U: set<NodeId>)
      reads this
    {
      Distinct(sorted)
      && (forall x :: x in queue ==> Tracked(x, paths, U))
      && (forall x :: x in sorted ==> Tracked(x, paths, U))
    }

    /** `x` lies in `U` and `paths` records a path from a leaf to it. */
    ghost predicate Tracked(x: NodeId, paths: map<NodeId, seq<NodeId>>, U: set<NodeId>)
      reads this
    {
      x in U && x in paths && IsPath(paths[x], x)
    }

    /** The queue without its head keeps the invariant, when the head is already sorted. */
    lemma SortInvPoll(sorted: seq<NodeId>, queue: seq<NodeId>, paths: map<NodeId, seq<NodeId>>, U: set<NodeId>)
      requires queue != [] && SortInv(sorted, queue, paths, U)
      ensures SortInv(sorted, queue[1..], paths, U)
    {
      assert forall x :: x in queue[1..] ==> x in queue;
    }

    /** After visiting `c`, every node met so far and every parent of `c` is tracked, parents through `c`. */
    lemma VisitTracks(c: NodeId, paths0: map<NodeId, seq<NodeId>>, U: set<NodeId>)
      requires U == Universe() && Tracked(c, paths0, U)
      ensures forall x :: Tracked(x, paths0, U) || x in Keys(Lookup(parentLinks, c)) ==>
                Tracked(x, paths0 + map p | p in Keys(Lookup(parentLinks, c)) :: paths0[c] + [p], U)
    {
      var ps := Keys(Lookup(parentLinks, c));
      ParentsInUniverse(c);
      var pc := paths0[c];
      forall p | p in ps
        ensures IsPath(pc + [p], p)
      {
        assert Linked(c, p);
      }
    }

    /** The lists after visiting the head `c` of the queue keep the invariant. */
    lemma VisitKeepsInv(sorted0: seq<NodeId>, queue0: seq<NodeId>, paths0: map<NodeId, seq<NodeId>>, U: set<NodeId>)
      requires U == Universe() && queue0 != [] && queue0[0] !in sorted0
      requires SortInv(sorted0, queue0, paths0, U) && Tracked(queue0[0], paths0, U)
      ensures SortInv(ParentStep(childLinks, sorted0 + [queue0[0]], queue0[1..], queue0[0], Keys(Lookup(parentLinks, queue0[0]))).0,
                      ParentStep(childLinks, sorted0 + [queue0[0]], queue0[1..], queue0[0], Keys(Lookup(parentLinks, queue0[0]))).1,
                      paths0 + map p | p in Keys(Lookup(parentLinks, queue0[0])) :: paths0[queue0[0]] + [p], U)
    {
      var c := queue0[0];
      var rest := queue0[1..];
      var ps := Keys(Lookup(parentLinks, c));
      assert forall x :: x in rest ==> x in queue0;
      ParentStepFacts(childLinks, sorted0 + [c], rest, c, ps);
      VisitTracks(c, paths0, U);
      assert Distinct(sorted0 + [c]);
    }

    /** The head of the queue, not yet sorted, is taken off, sorted, and its parents examined. */
    method Visit(sorted0: seq<NodeId>, queue0: seq<NodeId>, ghost paths0: map<NodeId, seq<NodeId>>, ghost U: set<NodeId>)
      returns (sorted: seq<NodeId>, queue: seq<NodeId>, ghost paths: map<NodeId, seq<NodeId>>)
      requires U == Universe() && queue0 != [] && queue0[0] !in sorted0
      requires SortInv(sorted0, queue0, paths0, U)
      ensures SortInv(sorted, queue, paths, U)
      ensures |sorted| > |sorted0| && sorted[..|sorted0| + 1] == sorted0 + [queue0[0]]
      ensures U - Elems(sorted) < U - Elems(sorted0)
    {
      var c := queue0[0];
      assert c in queue0;
      assert Tracked(c, paths0, U);
      VisitKeepsInv(sorted0, queue0, paths0, U);
      ParentStepFacts(childLinks, sorted0 + [c], queue0[1..], c, Keys(Lookup(parentLinks, c)));
      paths := paths0 + map p | p in Keys(Lookup(parentLinks, c)) :: paths0[c] + [p];
      sorted, queue := ProcessParents(c, sorted0 + [c], queue0[1..]);
      SmallerRemainder(U, sorted0, sorted, c);
    }

    /**
     * topologicalSort: nodes from the leaves upward, each at most once, the
     * first leaf first, every one a leaf or reachable from one.
     */
    method TopologicalSort() returns (sorted: seq<NodeId>)
      ensures Distinct(sorted)
      ensures leafNodeList == [] ==> sorted == []
      ensures leafNodeList != [] ==> |sorted| > 0 && sorted[0] == leafNodeList[0]
      ensures forall x :: x in sorted ==> Reachable(x)
    {
      ghost var U := Universe();
      sorted := [];
      var queue := leafNodeList;
      ghost var paths: map<NodeId, seq<NodeId>> := map x | x in leafNodeList :: [x];
      assert forall x :: x in leafNodeList ==> IsPath([x], x);
      while queue != []
        invariant SortInv(sorted, queue, paths, U)
        invariant sorted == [] ==> queue == leafNodeList
        invariant sorted != [] ==> leafNodeList != [] && sorted[0] == leafNodeList[0]
        decreases U - Elems(sorted), |queue|
      {
        if queue[0] in sorted {
          SortInvPoll(sorted, queue, paths, U);
          queue := queue[1..];
          continue;
        }
        ghost var before := sorted;
        ghost var head := queue[0];
        sorted, queue, paths := Visit(sorted, queue, paths, U);
        assert sorted[0] == sorted[..|before| + 1][0];
      }
      forall x | x in sorted
        ensures Reachable(x)
      {
        assert IsPath(paths[x], x);
      }
    }
  }
}
