/**
 The order in which `kill_tree_by_id` kills (src/process/tree.rs): PIDs sorted by falling
 `tree_depth`. The depth recursion keeps no visited set, so it ends exactly when no cycle can be
 reached.
 */
module KillOrder {
  import opened Wrappers
  import opened ProcessTree

  /** No cycle at pid or below it. */
  ghost predicate AcyclicBelow(tree: Tree, pid: Pid) {
    !Reaches(tree, pid, pid) && forall x :: Reaches(tree, pid, x) ==> !Reaches(tree, x, x)
  }

  /** Below a child there is strictly less. */
  lemma ChildIsSmaller(tree: Tree, p: Pid, c: Pid)
    requires AcyclicBelow(tree, p) && Edge(tree, p, c)
    ensures AcyclicBelow(tree, c)
    ensures DescendantSet(tree, c) < DescendantSet(tree, p)
  {
    EdgeReaches(tree, p, c);
    forall x | Reaches(tree, c, x)
      ensures Reaches(tree, p, x)
    {
      ReachesTrans(tree, p, c, x);
    }
    assert c in DescendantSet(tree, p) && c !in DescendantSet(tree, c);
  }

  /** `tree_depth`: 0 for a process without children, else 1 more than its deepest child. */
  ghost function TreeDepth(tree: Tree, pid: Pid): (d: nat)
    requires AcyclicBelow(tree, pid)
    decreases DescendantSet(tree, pid), if pid in tree then |tree[pid]| + 1 else 0
  {
    if pid in tree then 1 + DeepestOf(tree, pid, |tree[pid]|) else 0
  }

  /** The largest depth among the first n children, 0 if there are none. */
  ghost function DeepestOf(tree: Tree, pid: Pid, n: nat): (d: nat)
    requires AcyclicBelow(tree, pid) && pid in tree && n <= |tree[pid]|
    decreases DescendantSet(tree, pid), n
  {
    if n == 0 then 0
    else
      var child := tree[pid][n - 1];
      ChildIsSmaller(tree, pid, child);
      var d, rest := TreeDepth(tree, child), DeepestOf(tree, pid, n - 1);
      if d > rest then d else rest
  }

  lemma {:induction false} DeepestBounds(tree: Tree, pid: Pid, n: nat, k: nat)
    requires AcyclicBelow(tree, pid) && pid in tree && k < n <= |tree[pid]|
    ensures AcyclicBelow(tree, tree[pid][k])
    ensures TreeDepth(tree, tree[pid][k]) <= DeepestOf(tree, pid, n)
  {
    ChildIsSmaller(tree, pid, tree[pid][n - 1]);
    if k < n - 1 {
      DeepestBounds(tree, pid, n - 1, k);
    }
  }

  /** The depth falls strictly along every parent-to-child edge. */
  lemma DepthFalls(tree: Tree, p: Pid, c: Pid)
    requires AcyclicBelow(tree, p) && Edge(tree, p, c)
    ensures AcyclicBelow(tree, c) && TreeDepth(tree, c) < TreeDepth(tree, p)
  {
    var k :| 0 <= k < |tree[p]| && tree[p][k] == c;
    DeepestBounds(tree, p, |tree[p]|, k);
  }

  // ----- the depth is the longest chain -----

  /** No chain from a process takes more steps than its depth. */
  lemma {:induction false} ChainsWithinDepth(tree: Tree, path: seq<Pid>)
    requires path != [] && Path(tree, path) && AcyclicBelow(tree, path[0])
    ensures |path| - 1 <= TreeDepth(tree, path[0])
    decreases |path|
  {
    if |path| > 1 {
      assert Edge(tree, path[0], path[1]);
      DepthFalls(tree, path[0], path[1]);
      ChainsWithinDepth(tree, path[1..]);
    }
  }

  /** One of the first n children is as deep as the deepest. */
  lemma {:induction false} DeepestIsSome(tree: Tree, pid: Pid, n: nat) returns (k: nat)
    requires AcyclicBelow(tree, pid) && pid in tree && 0 < n <= |tree[pid]|
    ensures k < n && AcyclicBelow(tree, tree[pid][k])
    ensures TreeDepth(tree, tree[pid][k]) == DeepestOf(tree, pid, n)
  {
    ChildIsSmaller(tree, pid, tree[pid][n - 1]);
    k := n - 1;
    if n > 1 && TreeDepth(tree, tree[pid][n - 1]) <= DeepestOf(tree, pid, n - 1) {
      k := DeepestIsSome(tree, pid, n - 1);
    }
  }

  /** A process that is listed as a parent has a child, as in every tree that is built from a list. */
  ghost predicate NoEmptyLists(tree: Tree) {
    forall p :: p in tree ==> tree[p] != []
  }

  lemma {:induction false} BuiltTreesHaveNoEmptyLists(tree: Tree, processes: seq<ProcessInfo>)
    requires IsTreeOf(tree, processes)
    ensures NoEmptyLists(tree)
  {
  }

  /** Some chain takes as many steps as the depth says. */
  lemma {:induction false} DepthIsReached(tree: Tree, pid: Pid) returns (path: seq<Pid>)
    requires NoEmptyLists(tree) && AcyclicBelow(tree, pid)
    ensures path != [] && path[0] == pid && Path(tree, path) && |path| - 1 == TreeDepth(tree, pid)
    decreases DescendantSet(tree, pid)
  {
    if pid !in tree {
      return [pid];
    }
    var k := DeepestIsSome(tree, pid, |tree[pid]|);
    ChildIsSmaller(tree, pid, tree[pid][k]);
    var rest := DepthIsReached(tree, tree[pid][k]);
    path := [pid] + rest;
  }

  ghost predicate ChainOf(tree: Tree, pid: Pid, path: seq<Pid>, steps: nat) {
    |path| == steps + 1 && path[0] == pid && Path(tree, path)
  }

  /** `tree_depth` is d exactly if some chain of d steps goes down from the process and none is longer. */
  lemma {:induction false} DepthIsLongestChain(tree: Tree, pid: Pid, d: nat)
    requires NoEmptyLists(tree) && AcyclicBelow(tree, pid)
    ensures TreeDepth(tree, pid) == d
            <==> (exists path :: ChainOf(tree, pid, path, d))
                 && (forall path, n: nat :: ChainOf(tree, pid, path, n) ==> n <= d)
  {
    var deepest := DepthIsReached(tree, pid);
    assert ChainOf(tree, pid, deepest, TreeDepth(tree, pid));
    forall path, n: nat | ChainOf(tree, pid, path, n) ensures n <= TreeDepth(tree, pid) {
      ChainsWithinDepth(tree, path);
    }
  }

  // ----- when the recursion ends -----

  /** `tree_depth` as it runs, with at most `fuel` nested calls; None when they run out. */
  function DepthWithin(tree: Tree, pid: Pid, fuel: nat): (r: Option<nat>)
    decreases fuel, if pid in tree then |tree[pid]| + 1 else 0
  {
    if fuel == 0 then None
    else if pid !in tree then Some(0)
    else
      var deepest := DeepestWithin(tree, pid, |tree[pid]|, fuel);
      if deepest.None? then None else Some(1 + deepest.value)
  }

  function DeepestWithin(tree: Tree, pid: Pid, n: nat, fuel: nat): (r: Option<nat>)
    requires pid in tree && n <= |tree[pid]| && fuel > 0
    decreases fuel, n
  {
    if n == 0 then Some(0)
    else
      var d, rest := DepthWithin(tree, tree[pid][n - 1], fuel - 1), DeepestWithin(tree, pid, n - 1, fuel);
      if d.None? || rest.None? then None
      else if d.value > rest.value then d else rest
  }

  /** Without a cycle, one call per descendant is enough, and the answer is the depth. */
  lemma {:induction false} AcyclicTerminates(tree: Tree, pid: Pid, fuel: nat)
    requires AcyclicBelow(tree, pid) && fuel > |DescendantSet(tree, pid)|
    ensures DepthWithin(tree, pid, fuel) == Some(TreeDepth(tree, pid))
    decreases fuel, 1
  {
    if pid in tree {
      AcyclicTerminatesAt(tree, pid, |tree[pid]|, fuel);
    }
  }

  lemma {:induction false} AcyclicTerminatesAt(tree: Tree, pid: Pid, n: nat, fuel: nat)
    requires AcyclicBelow(tree, pid) && pid in tree && n <= |tree[pid]| && fuel > |DescendantSet(tree, pid)|
    ensures DeepestWithin(tree, pid, n, fuel) == Some(DeepestOf(tree, pid, n))
    decreases fuel, 0, n
  {
    if n > 0 {
      var child := tree[pid][n - 1];
      assert Edge(tree, pid, child);
      ChildIsSmaller(tree, pid, child);
      StrictSubsetSize(DescendantSet(tree, child), DescendantSet(tree, pid));
      AcyclicTerminates(tree, child, fuel - 1);
      AcyclicTerminatesAt(tree, pid, n - 1, fuel);
    }
  }

  lemma StrictSubsetSize(a: set<Pid>, b: set<Pid>)
    requires a < b
    ensures |a| < |b|
  {
    var x :| x in b && x !in a;
    SubsetSize(a, b - {x});
  }

  /** A chain of `fuel` steps uses up `fuel` calls. */
  lemma {:induction false} LongPathExhausts(tree: Tree, path: seq<Pid>, fuel: nat)
    requires Path(tree, path) && |path| > fuel
    ensures DepthWithin(tree, path[0], fuel).None?
    decreases fuel
  {
    if fuel > 0 {
      var p, c := path[0], path[1];
      assert Edge(tree, path[0], path[0 + 1]);
      LongPathExhausts(tree, path[1..], fuel - 1);
      var k :| 0 <= k < |tree[p]| && tree[p][k] == c;
      MissingChildExhausts(tree, p, |tree[p]|, k, fuel);
    }
  }

  lemma {:induction false} MissingChildExhausts(tree: Tree, pid: Pid, n: nat, k: nat, fuel: nat)
    requires pid in tree && k < n <= |tree[pid]| && fuel > 0
    requires DepthWithin(tree, tree[pid][k], fuel - 1).None?
    ensures DeepestWithin(tree, pid, n, fuel).None?
    decreases n
  {
    if k < n - 1 {
      MissingChildExhausts(tree, pid, n - 1, k, fuel);
    }
  }

  /** A cycle gives chains of every length. */
  lemma {:induction false} CycleGivesLongPaths(tree: Tree, x: Pid, n: nat) returns (path: seq<Pid>)
    requires Reaches(tree, x, x)
    ensures Path(tree, path) && |path| > n && path[0] == x
  {
    if n == 0 {
      path := [x];
    } else {
      var loop :| PathFromTo(tree, loop, x, x);
      var rest := CycleGivesLongPaths(tree, x, n - 1);
      path := JoinPaths(tree, loop, rest);
    }
  }

  lemma JoinPaths(tree: Tree, p: seq<Pid>, q: seq<Pid>) returns (path: seq<Pid>)
    requires Path(tree, p) && Path(tree, q) && |p| >= 2 && |q| >= 1 && p[|p| - 1] == q[0]
    ensures Path(tree, path) && |path| == |p| + |q| - 1 && path[0] == p[0]
  {
    path := p + q[1..];
    assert forall i :: |p| <= i < |path| ==> path[i] == q[i - |p| + 1];
  }

  /**
   `tree_depth` returns if and only if no cycle is reachable from its argument; PID reuse can make
   one, and then the recursion never ends.
   */
  lemma DepthTerminatesIffAcyclic(tree: Tree, pid: Pid)
    ensures (exists fuel :: DepthWithin(tree, pid, fuel).Some?) <==> AcyclicBelow(tree, pid)
  {
    if AcyclicBelow(tree, pid) {
      var fuel := |DescendantSet(tree, pid)| + 1;
      AcyclicTerminates(tree, pid, fuel);
      assert DepthWithin(tree, pid, fuel).Some?;
    } else {
      forall fuel: nat
        ensures DepthWithin(tree, pid, fuel).None?
      {
        var path: seq<Pid>;
        if Reaches(tree, pid, pid) {
          path := CycleGivesLongPaths(tree, pid, fuel);
        } else {
          var x :| Reaches(tree, pid, x) && Reaches(tree, x, x);
          var down :| PathFromTo(tree, down, pid, x);
          var around := CycleGivesLongPaths(tree, x, fuel);
          path := JoinPaths(tree, down, around);
        }
        LongPathExhausts(tree, path, fuel);
      }
    }
  }

  // ----- the kill order -----

  ghost predicate AllAcyclic(tree: Tree, pids: seq<Pid>) {
    forall i :: 0 <= i < |pids| ==> AcyclicBelow(tree, pids[i])
  }

  /** Depths never rise along the sequence: sorted by `Reverse(tree_depth)`. */
  ghost predicate SortedByFallingDepth(tree: Tree, pids: seq<Pid>)
    requires AllAcyclic(tree, pids)
  {
    forall i, j :: 0 <= i < j < |pids| ==> TreeDepth(tree, pids[i]) >= TreeDepth(tree, pids[j])
  }

  /** The kill set of an acyclic tree is acyclic below every member. */
  lemma KillSetAcyclic(tree: Tree, pid: Pid, x: Pid)
    requires AcyclicBelow(tree, pid) && x in DescendantSet(tree, pid) + {pid}
    ensures AcyclicBelow(tree, x)
  {
    if x != pid {
      forall y | Reaches(tree, x, y)
        ensures !Reaches(tree, y, y)
      {
        ReachesTrans(tree, pid, x, y);
      }
    }
  }

  /**
   Sorting by falling depth puts every parent before its children, whatever order the hash set
   produced: the order is topological, parents first.
   */
  lemma ParentsFirst(tree: Tree, order: seq<Pid>, i: nat, j: nat)
    requires AllAcyclic(tree, order) && SortedByFallingDepth(tree, order)
    requires i < |order| && j < |order| && Edge(tree, order[i], order[j])
    ensures i < j
  {
    DepthFalls(tree, order[i], order[j]);
  }

  /** The depth the sort compares: with fuel for every PID of the map the recursion never runs out. */
  function SortKey(tree: Tree, pid: Pid, fuel: nat): (d: nat)
  {
    var d := DepthWithin(tree, pid, fuel);
    if d.Some? then d.value else 0
  }

  /** Insert after every PID whose key is at least as large, as a stable sort does. */
  function InsertByKey(sorted: seq<Pid>, x: Pid, key: Pid -> nat): (r: seq<Pid>)
    ensures multiset(r) == multiset(sorted) + multiset{x}
  {
    if sorted == [] then [x]
    else
      var n := |sorted| - 1;
      assert sorted == sorted[..n] + [sorted[n]];
      if key(sorted[n]) >= key(x) then sorted + [x]
      else InsertByKey(sorted[..n], x, key) + [sorted[n]]
  }

  ghost predicate FallingKeys(s: seq<Pid>, key: Pid -> nat) {
    forall i, j :: 0 <= i < j < |s| ==> key(s[i]) >= key(s[j])
  }

  lemma FallingSnoc(s: seq<Pid>, x: Pid, key: Pid -> nat)
    requires FallingKeys(s, key) && forall i :: 0 <= i < |s| ==> key(s[i]) >= key(x)
    ensures FallingKeys(s + [x], key)
  {
  }

  lemma {:induction false} InsertKeepsSorted(sorted: seq<Pid>, x: Pid, key: Pid -> nat)
    requires FallingKeys(sorted, key)
    ensures FallingKeys(InsertByKey(sorted, x, key), key)
  {
    if sorted != [] {
      var n := |sorted| - 1;
      if key(sorted[n]) >= key(x) {
        FallingSnoc(sorted, x, key);
      } else {
        var head := InsertByKey(sorted[..n], x, key);
        InsertKeepsSorted(sorted[..n], x, key);
        InsertBound(sorted[..n], x, key, key(sorted[n]));
        FallingSnoc(head, sorted[n], key);
      }
    }
  }

  lemma InsertBound(sorted: seq<Pid>, x: Pid, key: Pid -> nat, low: nat)
    requires key(x) >= low && forall i :: 0 <= i < |sorted| ==> key(sorted[i]) >= low
    ensures forall i :: 0 <= i < |InsertByKey(sorted, x, key)| ==> key(InsertByKey(sorted, x, key)[i]) >= low
  {
    var r := InsertByKey(sorted, x, key);
    forall i | 0 <= i < |r|
      ensures key(r[i]) >= low
    {
      assert r[i] in multiset(r);
      assert r[i] == x || r[i] in multiset(sorted);
    }
  }

  /** `sort_by_key(Reverse(key))`: a permutation with falling keys. */
  method SortByFallingKey(pids: seq<Pid>, key: Pid -> nat) returns (order: seq<Pid>)
    ensures multiset(order) == multiset(pids)
    ensures FallingKeys(order, key)
  {
    order := [];
    for i := 0 to |pids|
      invariant multiset(order) == multiset(pids[..i])
      invariant FallingKeys(order, key)
    {
      assert pids[..i + 1] == pids[..i] + [pids[i]];
      InsertKeepsSorted(order, pids[i], key);
      order := InsertByKey(order, pids[i], key);
    }
    assert pids[..|pids|] == pids;
  }

  /** The depths that the sort asks for; None if one of the recursions does not end. */
  method Depths(tree: Tree, pids: seq<Pid>, fuel: nat) returns (all: bool)
    ensures all <==> forall i :: 0 <= i < |pids| ==> DepthWithin(tree, pids[i], fuel).Some?
  {
    for i := 0 to |pids|
      invariant forall j :: 0 <= j < i ==> DepthWithin(tree, pids[j], fuel).Some?
    {
      if DepthWithin(tree, pids[i], fuel).None? {
        return false;
      }
    }
    return true;
  }

  /**
   `kill_tree_by_id`: `hashOrder` is the kill set in the hash set's iteration order. The call does not
   return (None) exactly if there is a cycle at or below the process and more than one process to sort,
   since a single one is not compared. Otherwise every PID of the kill set is killed once, each parent
   before its children (the comment in the source says the opposite).
   */
  method KillTreeById(pid: Pid, tree: Tree, hashOrder: seq<Pid>) returns (r: Option<seq<Pid>>)
    requires multiset(hashOrder) == multiset(DescendantSet(tree, pid) + {pid})
    ensures r.None? <==> |DescendantSet(tree, pid) + {pid}| >= 2 && !AcyclicBelow(tree, pid)
    ensures r.Some? ==> multiset(r.value) == multiset(DescendantSet(tree, pid) + {pid})
    ensures r.Some? ==> forall i, j ::
              0 <= i < |r.value| && 0 <= j < |r.value| && i != j && Edge(tree, r.value[i], r.value[j]) ==> i < j
    ensures r.Some? && |r.value| >= 2 ==> AllAcyclic(tree, r.value) && SortedByFallingDepth(tree, r.value)
  {
    ghost var kill := DescendantSet(tree, pid) + {pid};
    assert |multiset(hashOrder)| == |hashOrder| == |kill|;
    var fuel := |hashOrder| + 1;
    if |hashOrder| < 2 {
      return Some(hashOrder);
    }
    DepthsKnownIff(tree, pid, hashOrder, fuel);
    var known := Depths(tree, hashOrder, fuel);
    if !known {
      return None;
    }
    var order := SortByFallingKey(hashOrder, x => SortKey(tree, x, fuel));
    KillOrderFalls(tree, pid, order, fuel);
    forall i, j | 0 <= i < |order| && 0 <= j < |order| && Edge(tree, order[i], order[j])
      ensures i < j
    {
      ParentsFirst(tree, order, i, j);
    }
    return Some(order);
  }

  lemma Member(tree: Tree, pid: Pid, order: seq<Pid>, i: nat)
    requires multiset(order) == multiset(DescendantSet(tree, pid) + {pid}) && i < |order|
    ensures order[i] in DescendantSet(tree, pid) + {pid}
  {
    assert order[i] in multiset(order);
  }

  /** With fuel for the whole kill set, all its depths are known exactly if there is no cycle. */
  lemma DepthsKnownIff(tree: Tree, pid: Pid, order: seq<Pid>, fuel: nat)
    requires multiset(order) == multiset(DescendantSet(tree, pid) + {pid})
    requires fuel == |DescendantSet(tree, pid) + {pid}| + 1
    ensures (forall i :: 0 <= i < |order| ==> DepthWithin(tree, order[i], fuel).Some?) <==> AcyclicBelow(tree, pid)
  {
    if AcyclicBelow(tree, pid) {
      forall i | 0 <= i < |order| ensures DepthWithin(tree, order[i], fuel).Some? {
        Member(tree, pid, order, i);
        DepthIsKnown(tree, pid, order[i], fuel);
      }
    } else {
      assert pid in multiset(order);
      var i :| 0 <= i < |order| && order[i] == pid;
      DepthTerminatesIffAcyclic(tree, pid);
    }
  }

  lemma DepthIsKnown(tree: Tree, pid: Pid, x: Pid, fuel: nat)
    requires AcyclicBelow(tree, pid) && x in DescendantSet(tree, pid) + {pid}
    requires fuel == |DescendantSet(tree, pid) + {pid}| + 1
    ensures AcyclicBelow(tree, x) && DepthWithin(tree, x, fuel) == Some(TreeDepth(tree, x))
  {
    KillSetAcyclic(tree, pid, x);
    DescendantsWithin(tree, pid, x);
    AcyclicTerminates(tree, x, fuel);
  }

  lemma KillOrderFalls(tree: Tree, pid: Pid, order: seq<Pid>, fuel: nat)
    requires AcyclicBelow(tree, pid) && multiset(order) == multiset(DescendantSet(tree, pid) + {pid})
    requires fuel == |DescendantSet(tree, pid) + {pid}| + 1
    requires FallingKeys(order, x => SortKey(tree, x, fuel))
    ensures AllAcyclic(tree, order) && SortedByFallingDepth(tree, order)
  {
    forall i | 0 <= i < |order|
      ensures AcyclicBelow(tree, order[i]) && SortKey(tree, order[i], fuel) == TreeDepth(tree, order[i])
    {
      Member(tree, pid, order, i);
      DepthIsKnown(tree, pid, order[i], fuel);
    }
  }

  /** Two processes that are each other's parent, as a reused PID can make them: the depth of either is never found. */
  lemma ReusedPidNeverEnds(tree: Tree)
    requires IsTreeOf(tree, [ProcessInfo(1, Some(2)), ProcessInfo(2, Some(1))])
    ensures !AcyclicBelow(tree, 1) && forall fuel: nat :: DepthWithin(tree, 1, fuel).None?
  {
    var list := [ProcessInfo(1, Some(2)), ProcessInfo(2, Some(1))];
    assert list[..1] == [ProcessInfo(1, Some(2))] && list[..1][..0] == [];
    assert ChildrenOf(list[..1], 1) == [] && ChildrenOf(list[..1], 2) == [1];
    assert ChildrenOf(list, 1) == [2] && ChildrenOf(list, 2) == [1];
    assert tree[1] == [2] && tree[2] == [1];
    assert tree[1][0] == 2 && tree[2][0] == 1;
    EdgeReaches(tree, 1, 2);
    EdgeReaches(tree, 2, 1);
    ReachesTrans(tree, 1, 2, 1);
    DepthTerminatesIffAcyclic(tree, 1);
  }

  lemma DescendantsWithin(tree: Tree, pid: Pid, x: Pid)
    requires x in DescendantSet(tree, pid) + {pid}
    ensures |DescendantSet(tree, x)| <= |DescendantSet(tree, pid) + {pid}|
  {
    forall y | Reaches(tree, x, y)
      ensures Reaches(tree, pid, y)
    {
      if x != pid {
        ReachesTrans(tree, pid, x, y);
      }
    }
    SubsetSize(DescendantSet(tree, x), DescendantSet(tree, pid) + {pid});
  }
}
