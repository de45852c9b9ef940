/**
 Process trees (src/process/tree.rs): a parent-to-children map built from a process list. Parent
 PIDs are stale as soon as they are reused, so the relation may contain cycles.
 */
module ProcessTree {
  import opened Wrappers

  type Pid = nat

  datatype ProcessInfo = ProcessInfo(pid: Pid, parent: Option<Pid>)

  type Tree = map<Pid, seq<Pid>>

  // ----- building the map -----

  /** The processes whose parent is p, in list order. */
  function ChildrenOf(processes: seq<ProcessInfo>, p: Pid): (c: seq<Pid>)
  {
    if processes == [] then []
    else
      var n := |processes| - 1;
      var rest := ChildrenOf(processes[..n], p);
      if processes[n].parent == Some(p) then rest + [processes[n].pid] else rest
  }

  /** Exactly the parents are keys, each with its children in list order. */
  ghost predicate IsTreeOf(tree: Tree, processes: seq<ProcessInfo>) {
    && (forall p :: p in tree <==> ChildrenOf(processes, p) != [])
    && (forall p :: p in tree ==> tree[p] == ChildrenOf(processes, p))
  }

  /** `build_process_tree` */
  method BuildProcessTree(processes: seq<ProcessInfo>) returns (tree: Tree)
    ensures IsTreeOf(tree, processes)
  {
    tree := map[];
    for i := 0 to |processes|
      invariant forall p :: p in tree <==> ChildrenOf(processes[..i], p) != []
      invariant forall p :: p in tree ==> tree[p] == ChildrenOf(processes[..i], p)
    {
      assert processes[..i + 1][..i] == processes[..i];
      if processes[i].parent.Some? {
        var p := processes[i].parent.value;
        tree := tree[p := (if p in tree then tree[p] else []) + [processes[i].pid]];
      }
    }
    assert processes[..|processes|] == processes;
  }

  // ----- reachability -----

  predicate Edge(tree: Tree, p: Pid, c: Pid) {
    p in tree && c in tree[p]
  }

  /** A chain of parent-to-child steps. */
  ghost predicate Path(tree: Tree, path: seq<Pid>) {
    forall i :: 0 <= i < |path| - 1 ==> Edge(tree, path[i], path[i + 1])
  }

  ghost predicate PathFromTo(tree: Tree, path: seq<Pid>, a: Pid, b: Pid) {
    |path| >= 2 && path[0] == a && path[|path| - 1] == b && Path(tree, path)
  }

  /** b is reached from a by one or more parent-to-child steps. */
  ghost predicate Reaches(tree: Tree, a: Pid, b: Pid) {
    exists path :: PathFromTo(tree, path, a, b)
  }

  lemma EdgeReaches(tree: Tree, a: Pid, b: Pid)
    requires Edge(tree, a, b)
    ensures Reaches(tree, a, b)
  {
    assert PathFromTo(tree, [a, b], a, b);
  }

  lemma ReachesTrans(tree: Tree, a: Pid, b: Pid, c: Pid)
    requires Reaches(tree, a, b) && Reaches(tree, b, c)
    ensures Reaches(tree, a, c)
  {
    var p :| PathFromTo(tree, p, a, b);
    var q :| PathFromTo(tree, q, b, c);
    var path := p + q[1..];
    assert forall i :: |p| <= i < |path| ==> path[i] == q[i - |p| + 1];
    assert PathFromTo(tree, path, a, c);
  }

  lemma EdgeThenReaches(tree: Tree, a: Pid, b: Pid, c: Pid)
    requires Edge(tree, a, b) && Reaches(tree, b, c)
    ensures Reaches(tree, a, c)
  {
    EdgeReaches(tree, a, b);
    ReachesTrans(tree, a, b, c);
  }

  /** Every PID the map mentions. */
  ghost function Nodes(tree: Tree): (s: set<Pid>)
    ensures forall p, c :: Edge(tree, p, c) ==> p in s && c in s
  {
    tree.Keys + set p, i | p in tree && 0 <= i < |tree[p]| :: tree[p][i]
  }

  lemma ReachedIsNode(tree: Tree, a: Pid, b: Pid)
    requires Reaches(tree, a, b)
    ensures a in Nodes(tree) && b in Nodes(tree)
  {
    var path :| PathFromTo(tree, path, a, b);
    assert Edge(tree, path[0], path[0 + 1]);
    assert Edge(tree, path[|path| - 2], path[|path| - 2 + 1]);
  }

  /** All descendants of a. */
  ghost function DescendantSet(tree: Tree, a: Pid): (s: set<Pid>)
    ensures forall b :: b in s <==> Reaches(tree, a, b)
  {
    assert forall b :: Reaches(tree, a, b) ==> b in Nodes(tree) by {
      forall b | Reaches(tree, a, b) ensures b in Nodes(tree) { ReachedIsNode(tree, a, b); }
    }
    set b | b in Nodes(tree) && Reaches(tree, a, b)
  }

  // ----- collect_descendants -----

  ghost predicate HasChildrenOf(tree: Tree, s: set<Pid>, p: Pid) {
    forall c :: Edge(tree, p, c) ==> c in s
  }

  /** What a call leaves behind: the old set, new PIDs all below pid, and no gap below a new one. */
  ghost predicate Collected(tree: Tree, pid: Pid, before: set<Pid>, after: set<Pid>) {
    && before <= after
    && (forall x :: x in after - before ==> Reaches(tree, pid, x))
    && (forall x :: x in after - before ==> HasChildrenOf(tree, after, x))
    && HasChildrenOf(tree, after, pid)
  }

  /** `collect_descendants`; it terminates on every map, cycles included. */
  method CollectDescendants(pid: Pid, tree: Tree, before: set<Pid>) returns (result: set<Pid>)
    ensures Collected(tree, pid, before, result)
    decreases |Nodes(tree) - before|
  {
    result := before;
    if pid in tree {
      var children := tree[pid];
      for i := 0 to |children|
        invariant before <= result
        invariant forall x :: x in result - before ==> Reaches(tree, pid, x)
        invariant forall x :: x in result - before ==> HasChildrenOf(tree, result, x)
        invariant forall j :: 0 <= j < i ==> children[j] in result
      {
        var child := children[i];
        assert Edge(tree, pid, child);
        if child !in result {
          var start := result + {child};
          EdgeReaches(tree, pid, child);
          SmallerRest(Nodes(tree), before, start, child);
          ghost var r := result;
          result := CollectDescendants(child, tree, start);
          forall x | x in result - before
            ensures Reaches(tree, pid, x) && HasChildrenOf(tree, result, x)
          {
            if x !in start {
              EdgeThenReaches(tree, pid, child, x);
            } else if x != child {
              assert HasChildrenOf(tree, r, x);
            }
          }
        }
      }
    }
  }

  lemma SmallerRest(nodes: set<Pid>, before: set<Pid>, after: set<Pid>, x: Pid)
    requires before <= after && x in nodes && x !in before && x in after
    ensures |nodes - after| < |nodes - before|
  {
    assert nodes - after <= (nodes - before) - {x};
    SubsetSize(nodes - after, (nodes - before) - {x});
  }

  lemma {:induction false} SubsetSize(a: set<Pid>, b: set<Pid>)
    requires a <= b
    ensures |a| <= |b|
  {
    if a != {} {
      var x :| x in a;
      SubsetSize(a - {x}, b - {x});
    }
  }

  lemma {:induction false} ClosedSetHoldsPath(tree: Tree, s: set<Pid>, path: seq<Pid>)
    requires Path(tree, path) && |path| >= 2 && HasChildrenOf(tree, s, path[0])
    requires forall x :: x in s ==> HasChildrenOf(tree, s, x)
    ensures path[|path| - 1] in s
    decreases |path|
  {
    assert Edge(tree, path[0], path[0 + 1]);
    if |path| > 2 {
      ClosedSetHoldsPath(tree, s, path[1..]);
    }
  }

  /** From the empty set the collected PIDs are exactly the descendants. */
  lemma CollectedIsReachable(tree: Tree, pid: Pid, result: set<Pid>)
    requires Collected(tree, pid, {}, result)
    ensures result == DescendantSet(tree, pid)
  {
    assert result - {} == result;
    forall x | Reaches(tree, pid, x)
      ensures x in result
    {
      var path :| PathFromTo(tree, path, pid, x);
      ClosedSetHoldsPath(tree, result, path);
    }
  }

  /** The kill set of `kill_tree_by_id`: the process and all its descendants, nothing else. */
  method KillSet(pid: Pid, tree: Tree) returns (kill: set<Pid>)
    ensures kill == DescendantSet(tree, pid) + {pid}
  {
    var collected := CollectDescendants(pid, tree, {});
    CollectedIsReachable(tree, pid, collected);
    kill := collected + {pid};
  }

  // ----- find_root_ancestor -----

  ghost predicate HasParent(tree: Tree, c: Pid) {
    exists p :: Edge(tree, p, c)
  }

  /** The reverse map holds a parent for exactly the PIDs that have one. */
  ghost predicate ParentsOf(tree: Tree, childToParent: map<Pid, Pid>) {
    && (forall c :: c in childToParent ==> Edge(tree, childToParent[c], c))
    && (forall c :: HasParent(tree, c) ==> c in childToParent)
  }

  /** The reverse map; `order` is the hash map's iteration order, and a later insert overwrites. */
  method InvertTree(tree: Tree, order: seq<Pid>) returns (childToParent: map<Pid, Pid>)
    requires forall p :: p in order <==> p in tree
    ensures ParentsOf(tree, childToParent)
  {
    childToParent := map[];
    for i := 0 to |order|
      invariant forall c :: c in childToParent ==> Edge(tree, childToParent[c], c)
      invariant forall k, c :: 0 <= k < i && Edge(tree, order[k], c) ==> c in childToParent
    {
      var p := order[i];
      assert p in order;
      var children := tree[p];
      for j := 0 to |children|
        invariant forall c :: c in childToParent ==> Edge(tree, childToParent[c], c)
        invariant forall k, c :: 0 <= k < i && Edge(tree, order[k], c) ==> c in childToParent
        invariant forall k :: 0 <= k < j ==> children[k] in childToParent
      {
        assert Edge(tree, p, children[j]);
        childToParent := childToParent[children[j] := p];
      }
    }
    forall c | HasParent(tree, c)
      ensures c in childToParent
    {
      var p :| Edge(tree, p, c);
      assert p in order;
    }
  }

  /** No process has two parents, as in every list that has each PID once. */
  ghost predicate SingleParents(tree: Tree) {
    forall p, q, c :: Edge(tree, p, c) && Edge(tree, q, c) ==> p == q
  }

  predicate DistinctPids(processes: seq<ProcessInfo>) {
    forall i, j :: 0 <= i < j < |processes| ==> processes[i].pid != processes[j].pid
  }

  /** A child stands in the list, with its parent. */
  lemma {:induction false} ListedChild(processes: seq<ProcessInfo>, p: Pid, c: Pid) returns (i: nat)
    requires c in ChildrenOf(processes, p)
    ensures i < |processes| && processes[i] == ProcessInfo(c, Some(p))
  {
    var n := |processes| - 1;
    if processes[n] == ProcessInfo(c, Some(p)) {
      i := n;
    } else {
      i := ListedChild(processes[..n], p, c);
    }
  }

  /** Every listed child of p is among its children. */
  lemma {:induction false} ChildIsListed(processes: seq<ProcessInfo>, p: Pid, i: nat)
    requires i < |processes| && processes[i].parent == Some(p)
    ensures processes[i].pid in ChildrenOf(processes, p)
    decreases |processes|
  {
    var n := |processes| - 1;
    if i < n {
      ChildIsListed(processes[..n], p, i);
    }
  }

  predicate ChildAt(processes: seq<ProcessInfo>, p: Pid, k: nat) {
    k < |processes| && processes[k].parent == Some(p)
  }

  /** The places of the processes whose parent is p, in the list's order, and the processes there. */
  ghost predicate ListedAt(processes: seq<ProcessInfo>, p: Pid, at: seq<nat>, children: seq<Pid>) {
    && |at| == |children|
    && (forall i :: 0 <= i < |at| ==> ChildAt(processes, p, at[i]) && processes[at[i]].pid == children[i])
    && (forall i, j :: 0 <= i < j < |at| ==> at[i] < at[j])
    && (forall k: nat :: ChildAt(processes, p, k) ==> k in at)
  }

  lemma {:induction false} ListedOneMore(processes: seq<ProcessInfo>, p: Pid, at: seq<nat>, children: seq<Pid>, n: nat)
    requires |processes| == n + 1 && ListedAt(processes[..n], p, at, children) && ChildAt(processes, p, n)
    ensures ListedAt(processes, p, at + [n], children + [processes[n].pid])
  {
    forall i | 0 <= i < |at| ensures ChildAt(processes, p, at[i]) && processes[at[i]].pid == children[i] && at[i] < n {
      assert ChildAt(processes[..n], p, at[i]);
    }
    forall k: nat | ChildAt(processes, p, k) ensures k in at + [n] {
      assert k < n ==> ChildAt(processes[..n], p, k);
    }
  }

  lemma {:induction false} ListedAsBefore(processes: seq<ProcessInfo>, p: Pid, at: seq<nat>, children: seq<Pid>, n: nat)
    requires |processes| == n + 1 && ListedAt(processes[..n], p, at, children) && !ChildAt(processes, p, n)
    ensures ListedAt(processes, p, at, children)
  {
    forall i | 0 <= i < |at| ensures ChildAt(processes, p, at[i]) && processes[at[i]].pid == children[i] {
      assert ChildAt(processes[..n], p, at[i]);
    }
    forall k: nat | ChildAt(processes, p, k) ensures k in at {
      assert k < n && ChildAt(processes[..n], p, k);
    }
  }

  /** The children of p are those that the list names, in its order. */
  lemma {:induction false} ChildrenInOrder(processes: seq<ProcessInfo>, p: Pid) returns (at: seq<nat>)
    ensures ListedAt(processes, p, at, ChildrenOf(processes, p))
    decreases |processes|
  {
    at := [];
    if processes != [] {
      var n := |processes| - 1;
      at := ChildrenInOrder(processes[..n], p);
      if ChildAt(processes, p, n) {
        ListedOneMore(processes, p, at, ChildrenOf(processes[..n], p), n);
        at := at + [n];
      } else {
        ListedAsBefore(processes, p, at, ChildrenOf(processes[..n], p), n);
      }
    }
  }

  /** The tree's edges are exactly the parents that the list names. */
  lemma EdgeIff(tree: Tree, processes: seq<ProcessInfo>, p: Pid, c: Pid)
    requires IsTreeOf(tree, processes)
    ensures Edge(tree, p, c) <==> ProcessInfo(c, Some(p)) in processes
  {
    if Edge(tree, p, c) {
      var i := ListedChild(processes, p, c);
    }
    if ProcessInfo(c, Some(p)) in processes {
      var i :| 0 <= i < |processes| && processes[i] == ProcessInfo(c, Some(p));
      ChildIsListed(processes, p, i);
    }
  }

  lemma DistinctPidsHaveOneParent(tree: Tree, processes: seq<ProcessInfo>)
    requires IsTreeOf(tree, processes) && DistinctPids(processes)
    ensures SingleParents(tree)
  {
    forall p, q, c | Edge(tree, p, c) && Edge(tree, q, c)
      ensures p == q
    {
      var i := ListedChild(processes, p, c);
      var j := ListedChild(processes, q, c);
    }
  }

  /** Where a climb from child to parent ends: at a process without a parent or on a cycle. */
  ghost predicate Ending(tree: Tree, p: Pid) {
    !HasParent(tree, p) || Reaches(tree, p, p)
  }

  /** The way down from the first such process above (or at) `pid`. */
  ghost predicate Climbs(tree: Tree, path: seq<Pid>, pid: Pid) {
    && path != [] && path[|path| - 1] == pid && Path(tree, path)
    && Ending(tree, path[0]) && forall i :: 0 < i < |path| ==> !Ending(tree, path[i])
  }

  /** Parents of the process and of the members of the set are members. */
  ghost predicate ClosedAbove(tree: Tree, s: set<Pid>, x: Pid) {
    forall p, c :: Edge(tree, p, c) && (c == x || c in s) ==> p in s
  }

  lemma {:induction false} AboveIsInside(tree: Tree, s: set<Pid>, x: Pid, path: seq<Pid>)
    requires ClosedAbove(tree, s, x) && |path| >= 2 && Path(tree, path)
    requires path[|path| - 1] == x || path[|path| - 1] in s
    ensures path[0] in s
    decreases |path|
  {
    var n := |path| - 1;
    assert Edge(tree, path[n - 1], path[n - 1 + 1]);
    if n > 1 {
      AboveIsInside(tree, s, x, path[..n]);
    }
  }

  lemma NotOnCycle(tree: Tree, s: set<Pid>, x: Pid)
    requires ClosedAbove(tree, s, x) && x !in s
    ensures !Reaches(tree, x, x)
  {
    if path :| PathFromTo(tree, path, x, x) {
      AboveIsInside(tree, s, x, path);
    }
  }

  predicate Distinct(path: seq<Pid>) {
    forall i, j :: 0 <= i < j < |path| ==> path[i] != path[j]
  }

  /** The processes before position i are all that is above it, if the first of them has no parent but among them. */
  lemma ChainIsClosed(tree: Tree, path: seq<Pid>, i: nat)
    requires SingleParents(tree) && Path(tree, path) && 0 < i < |path|
    requires forall p :: Edge(tree, p, path[0]) ==> p in path[..i]
    ensures ClosedAbove(tree, (set x | x in path[..i]), path[i])
  {
    var s := set x | x in path[..i];
    forall p, c | Edge(tree, p, c) && (c == path[i] || c in s)
      ensures p in s
    {
      var k :| 0 <= k <= i && path[k] == c;
      if k > 0 {
        assert Edge(tree, path[k - 1], path[k - 1 + 1]);
        assert p == path[k - 1] == path[..i][k - 1];
      }
    }
  }

  /** A climb through distinct processes, from one without a parent or one whose parent is at position j. */
  lemma ChainClimbs(tree: Tree, path: seq<Pid>, j: nat)
    requires SingleParents(tree) && path != [] && Path(tree, path) && Distinct(path) && j < |path|
    requires HasParent(tree, path[0]) ==> Edge(tree, path[j], path[0])
    requires !HasParent(tree, path[0]) ==> j == 0
    ensures Climbs(tree, path[j..], path[|path| - 1])
  {
    var climb := path[j..];
    assert climb[|climb| - 1] == path[|path| - 1];
    forall i | 0 <= i < |climb| - 1 ensures Edge(tree, climb[i], climb[i + 1]) {
      assert Edge(tree, path[j + i], path[j + i + 1]);
    }
    if HasParent(tree, path[0]) {
      CycleThrough(tree, path, j);
    }
    forall i | 0 < i < |climb| ensures !Ending(tree, climb[i]) {
      var k := j + i;
      assert climb[i] == path[k];
      assert Edge(tree, path[k - 1], path[k - 1 + 1]);
      forall p | Edge(tree, p, path[0]) ensures p in path[..k] {
        assert path[..k][j] == path[j];
      }
      ChainIsClosed(tree, path, k);
      var above := set x | x in path[..k];
      NotOnCycle(tree, above, path[k]);
    }
  }

  lemma CycleThrough(tree: Tree, path: seq<Pid>, j: nat)
    requires j < |path| && Path(tree, path) && Edge(tree, path[j], path[0])
    ensures Reaches(tree, path[j], path[j])
  {
    var round := [path[j]] + path[..j + 1];
    forall i | 0 <= i < |round| - 1 ensures Edge(tree, round[i], round[i + 1]) {
      if i > 0 {
        assert Edge(tree, path[i - 1], path[i - 1 + 1]);
      }
    }
    assert PathFromTo(tree, round, path[j], path[j]);
  }

  /** With single parents there is only one way up, so only one process where it ends. */
  lemma {:induction false} ClimbIsUnique(tree: Tree, a: seq<Pid>, b: seq<Pid>, pid: Pid)
    requires SingleParents(tree) && Climbs(tree, a, pid) && Climbs(tree, b, pid)
    ensures a[0] == b[0]
    decreases |a|
  {
    var n, m := |a| - 1, |b| - 1;
    if n > 0 && m > 0 {
      assert Edge(tree, a[n - 1], a[n - 1 + 1]) && Edge(tree, b[m - 1], b[m - 1 + 1]);
      ClimbIsUnique(tree, a[..n], b[..m], a[n - 1]);
    }
  }

  /**
   `find_root_ancestor`: it terminates on every map; the result is the start or an ancestor of it, and it has
   no parent unless it lies on a cycle. With single parents it is the first such process on the way up.
   */
  method FindRootAncestor(start: Pid, tree: Tree, order: seq<Pid>) returns (root: Pid)
    requires forall p :: p in order <==> p in tree
    ensures root == start || Reaches(tree, root, start)
    ensures HasParent(tree, root) ==> Reaches(tree, root, root)
    ensures SingleParents(tree) ==> exists path :: Climbs(tree, path, start) && path[0] == root
  {
    var childToParent := InvertTree(tree, order);
    root := start;
    var visited: set<Pid> := {};
    ghost var way := [start];
    while root in childToParent
      invariant root == start || Reaches(tree, root, start)
      invariant forall v :: v in visited ==> Reaches(tree, root, v)
      invariant visited <= childToParent.Keys
      invariant WayUp(tree, way, start, root, visited)
      decreases childToParent.Keys - visited
    {
      if root in visited {
        WayMeetsItself(tree, way, start, root, visited);
        return;
      }
      var parent := childToParent[root];
      assert Edge(tree, parent, root);
      EdgeReaches(tree, parent, root);
      forall v | v in visited + {root} || (v == start && root != start)
        ensures Reaches(tree, parent, v)
      {
        if v != root {
          ReachesTrans(tree, parent, root, v);
        }
      }
      WayGoesOn(tree, way, start, root, visited, parent);
      way := [parent] + way;
      visited := visited + {root};
      root := parent;
    }
    WayIsOver(tree, way, start, root, visited);
  }

  /** The way down from `root` to the start; all but the root itself are visited, each once. */
  ghost predicate WayUp(tree: Tree, way: seq<Pid>, start: Pid, root: Pid, visited: set<Pid>) {
    && way != [] && way[0] == root && way[|way| - 1] == start && Path(tree, way)
    && Distinct(way[1..]) && forall v :: v in visited <==> v in way[1..]
  }

  lemma WayGoesOn(tree: Tree, way: seq<Pid>, start: Pid, root: Pid, visited: set<Pid>, parent: Pid)
    requires WayUp(tree, way, start, root, visited) && root !in visited && Edge(tree, parent, root)
    ensures WayUp(tree, [parent] + way, start, parent, visited + {root})
  {
    var next := [parent] + way;
    forall i | 0 <= i < |next| - 1 ensures Edge(tree, next[i], next[i + 1]) {
      if i > 0 {
        assert Edge(tree, way[i - 1], way[i - 1 + 1]);
      }
    }
    assert next[1..] == way && way == [root] + way[1..];
    forall i, j | 0 <= i < j < |way| ensures way[i] != way[j] {
      assert way[j] == way[1..][j - 1] && (i > 0 ==> way[i] == way[1..][i - 1]);
    }
  }

  lemma WayIsOver(tree: Tree, way: seq<Pid>, start: Pid, root: Pid, visited: set<Pid>)
    requires WayUp(tree, way, start, root, visited) && !HasParent(tree, root)
    ensures SingleParents(tree) ==> exists path :: Climbs(tree, path, start) && path[0] == root
  {
    if SingleParents(tree) {
      forall i, j | 0 <= i < j < |way| ensures way[i] != way[j] {
        assert way[j] == way[1..][j - 1];
        assert Edge(tree, way[j - 1], way[j - 1 + 1]);
        if i > 0 {
          assert way[i] == way[1..][i - 1];
        }
      }
      ChainClimbs(tree, way, 0);
      assert way[0..] == way;
    }
  }

  lemma WayMeetsItself(tree: Tree, way: seq<Pid>, start: Pid, root: Pid, visited: set<Pid>)
    requires WayUp(tree, way, start, root, visited) && root in visited
    ensures SingleParents(tree) ==> exists path :: Climbs(tree, path, start) && path[0] == root
  {
    if SingleParents(tree) {
      var rest := way[1..];
      var j :| 0 <= j < |rest| && rest[j] == root;
      forall i | 0 <= i < |rest| - 1 ensures Edge(tree, rest[i], rest[i + 1]) {
        assert Edge(tree, way[i + 1], way[i + 1 + 1]);
      }
      assert Edge(tree, way[0], way[0 + 1]);
      ChainClimbs(tree, rest, j);
      assert rest[j..][0] == root;
    }
  }

  // ----- kill_tree_from_root -----

  /** The end of the climb in the first snapshot is the process itself or still above it in the second. */
  ghost predicate StillBelow(tree: Tree, later: Tree, pid: Pid) {
    exists path :: Climbs(tree, path, pid) && (path[0] == pid || Reaches(later, path[0], pid))
  }

  /**
   `kill_tree_from_root`: the root is found in one snapshot, the tree below it is killed by another, taken
   later. Where the first has each process once, the requested process is among the killed exactly if the
   first parentless (or cyclic) process above it in the first snapshot is still above it in the second.
   On one snapshot it always is.
   */
  method KillSetFromRoot(pid: Pid, tree: Tree, order: seq<Pid>, later: Tree) returns (root: Pid, kill: set<Pid>)
    requires forall p :: p in order <==> p in tree
    ensures root == pid || Reaches(tree, root, pid)
    ensures HasParent(tree, root) ==> Reaches(tree, root, root)
    ensures SingleParents(tree) ==> forall path :: Climbs(tree, path, pid) ==> path[0] == root
    ensures SingleParents(tree) ==> (pid in kill <==> StillBelow(tree, later, pid))
    ensures kill == DescendantSet(later, root) + {root}
    ensures later == tree ==> pid in kill
  {
    root := FindRootAncestor(pid, tree, order);
    kill := KillSet(root, later);
    if SingleParents(tree) {
      var path :| Climbs(tree, path, pid) && path[0] == root;
      forall other | Climbs(tree, other, pid) ensures other[0] == root {
        ClimbIsUnique(tree, path, other, pid);
      }
    }
  }

  /** A process whose parent is 1 in the first list and 3 in the second: only process 1 is killed. */
  lemma MovedProcessIsMissed(tree: Tree, later: Tree)
    requires IsTreeOf(tree, [ProcessInfo(2, Some(1))]) && IsTreeOf(later, [ProcessInfo(2, Some(3))])
    ensures SingleParents(tree) && Climbs(tree, [1, 2], 2) && !StillBelow(tree, later, 2)
    ensures DescendantSet(later, 1) + {1} == {1}
  {
    OneEdge(tree, 2, 1);
    OneEdge(later, 2, 3);
    DistinctPidsHaveOneParent(tree, [ProcessInfo(2, Some(1))]);
    assert Edge(tree, 1, 2);
    NotOnCycle(tree, {1}, 2);
    assert Climbs(tree, [1, 2], 2);
    forall x ensures !Reaches(later, 1, x) {
      if Reaches(later, 1, x) {
        FirstStep(later, 1, x);
      }
    }
    if path :| Climbs(tree, path, 2) && (path[0] == 2 || Reaches(later, path[0], 2)) {
      ClimbIsUnique(tree, [1, 2], path, 2);
    }
  }

  lemma FirstStep(tree: Tree, a: Pid, b: Pid)
    requires Reaches(tree, a, b)
    ensures exists c :: Edge(tree, a, c)
  {
    var path :| PathFromTo(tree, path, a, b);
    assert Edge(tree, path[0], path[0 + 1]);
  }

  lemma OneEdge(tree: Tree, pid: Pid, parent: Pid)
    requires IsTreeOf(tree, [ProcessInfo(pid, Some(parent))])
    ensures forall p, c :: Edge(tree, p, c) <==> p == parent && c == pid
  {
    var list := [ProcessInfo(pid, Some(parent))];
    assert list[..0] == [];
    forall p ensures ChildrenOf(list, p) == if p == parent then [pid] else [] {
      assert list[..|list| - 1] == [] && list[|list| - 1].pid == pid;
    }
    assert tree[parent] == [pid] && [pid][0] == pid;
  }
}
