/**
 Diffing successive named-pipe snapshots (src/pipes/enumerate.rs, `NamedPipePoller`). Each poll
 lists the pipes; the listing is the environment's answer and may fail.
 */
module PipePoller {
  import opened Wrappers
  import opened Names

  type Name = string

  /** `NamedPipeInfo`: the name and everything else the directory reports about the pipe. */
  datatype Info = Info(name: Name, details: int)

  datatype Change = Appeared(info: Info) | Removed(info: Info)

  function ChangeName(c: Change): (n: Name)
  {
    c.info.name
  }

  type Listing = Result<seq<Info>, int>

  type Known = map<Name, Info>

  ghost predicate Keyed(known: Known) {
    forall n :: n in known ==> known[n].name == n
  }

  /** Collecting into a map keyed by name; of two pipes with one name the later stays. */
  function MapOf(pipes: seq<Info>): (m: Known)
    ensures Keyed(m)
  {
    if pipes == [] then map[]
    else
      var last := pipes[|pipes| - 1];
      MapOf(pipes[..|pipes| - 1])[last.name := last]
  }

  /** The last pipe listed under the name. */
  predicate LastNamed(pipes: seq<Info>, name: Name, i: nat)
    requires i < |pipes|
  {
    pipes[i].name == name && forall j :: i < j < |pipes| ==> pipes[j].name != name
  }

  predicate Lists(pipes: seq<Info>, name: Name) {
    exists i :: 0 <= i < |pipes| && pipes[i].name == name
  }

  lemma ListsSnoc(pipes: seq<Info>, name: Name)
    requires pipes != []
    ensures Lists(pipes, name) <==> Lists(pipes[..|pipes| - 1], name) || pipes[|pipes| - 1].name == name
  {
    var init := pipes[..|pipes| - 1];
    if i :| 0 <= i < |pipes| && pipes[i].name == name {
      assert i < |init| ==> init[i].name == name;
    }
    if i :| 0 <= i < |init| && init[i].name == name {
      assert pipes[i].name == name;
    }
  }

  /** The keys are exactly the names listed. */
  lemma {:induction false} MapOfHas(pipes: seq<Info>, name: Name)
    ensures name in MapOf(pipes) <==> Lists(pipes, name)
    decreases |pipes|
  {
    if pipes != [] {
      MapOfHas(pipes[..|pipes| - 1], name);
      ListsSnoc(pipes, name);
    }
  }

  /** And each has the last pipe listed under it. */
  lemma {:induction false} MapOfLast(pipes: seq<Info>, name: Name, i: nat)
    requires i < |pipes| && LastNamed(pipes, name, i)
    ensures name in MapOf(pipes) && MapOf(pipes)[name] == pipes[i]
    decreases |pipes|
  {
    var n := |pipes| - 1;
    if i < n {
      assert pipes[n].name != name;
      assert LastNamed(pipes[..n], name, i);
      MapOfLast(pipes[..n], name, i);
    }
  }

  // ----- what a poll reports -----

  predicate Reportable(before: Known, after: Known, c: Change) {
    match c
    case Appeared(i) => i.name in after && i.name !in before && after[i.name] == i
    case Removed(i) => i.name in before && i.name !in after && before[i.name] == i
  }

  ghost predicate SortedByName(changes: seq<Change>) {
    forall i, j :: 0 <= i < j < |changes| ==> Less(ChangeName(changes[i]), ChangeName(changes[j]))
  }

  /** Exactly the changes between two maps, in name order; strictness excludes a name appearing twice. */
  ghost predicate IsDiff(before: Known, after: Known, changes: seq<Change>) {
    && SortedByName(changes)
    && (forall c :: c in changes <==> Reportable(before, after, c))
  }

  /** The report does not depend on hash order: two diffs of the same maps are equal. */
  lemma DiffIsUnique(before: Known, after: Known, a: seq<Change>, b: seq<Change>)
    requires IsDiff(before, after, a) && IsDiff(before, after, b)
    ensures a == b
  {
    SortedSameElements(a, b);
  }

  lemma {:induction false} SortedSameElements(a: seq<Change>, b: seq<Change>)
    requires SortedByName(a) && SortedByName(b)
    requires forall c :: c in a <==> c in b
    ensures a == b
  {
    assert a != [] ==> a[0] in a;
    assert b != [] ==> b[0] in b;
    if a != [] && b != [] {
      var i :| 0 <= i < |b| && b[i] == a[0];
      var j :| 0 <= j < |a| && a[j] == b[0];
      if i > 0 && j > 0 {
        LessTransitive(ChangeName(a[0]), ChangeName(b[0]), ChangeName(a[0]));
        LessIrreflexive(ChangeName(a[0]));
      }
      assert a[0] == b[0];
      forall c
        ensures c in a[1..] <==> c in b[1..]
      {
        TailMembers(a, c);
        TailMembers(b, c);
      }
      SortedSameElements(a[1..], b[1..]);
      assert a == [a[0]] + a[1..] && b == [b[0]] + b[1..];
    }
  }

  lemma TailMembers(s: seq<Change>, c: Change)
    requires s != [] && SortedByName(s)
    ensures c in s[1..] <==> c in s && c != s[0]
  {
    if c in s[1..] {
      var k :| 0 <= k < |s[1..]| && s[1..][k] == c;
      assert s[k + 1] == c;
      LessIrreflexive(ChangeName(c));
    }
    if c in s && c != s[0] {
      var k :| 0 <= k < |s| && s[k] == c;
      assert s[1..][k - 1] == c;
    }
  }

  // ----- sorting -----

  /** Insert in front of the first change with a larger name. */
  function Insert(sorted: seq<Change>, c: Change): (r: seq<Change>)
    ensures forall x :: x in r <==> x in sorted || x == c
    ensures |r| == |sorted| + 1
  {
    if sorted == [] then [c]
    else if Less(ChangeName(c), ChangeName(sorted[0])) then [c] + sorted
    else
      var r := [sorted[0]] + Insert(sorted[1..], c);
      assert sorted == [sorted[0]] + sorted[1..];
      r
  }

  lemma {:induction false} InsertSorted(sorted: seq<Change>, c: Change)
    requires SortedByName(sorted)
    requires forall x :: x in sorted ==> ChangeName(x) != ChangeName(c)
    ensures SortedByName(Insert(sorted, c))
  {
    if sorted != [] {
      var head, tail := sorted[0], sorted[1..];
      assert head in sorted;
      if Less(ChangeName(c), ChangeName(head)) {
        forall j | 0 <= j < |sorted|
          ensures Less(ChangeName(c), ChangeName(sorted[j]))
        {
          if j > 0 {
            LessTransitive(ChangeName(c), ChangeName(head), ChangeName(sorted[j]));
          }
        }
      } else {
        LessTotal(ChangeName(c), ChangeName(head));
        assert forall x :: x in tail ==> x in sorted;
        InsertSorted(tail, c);
        HeadBelow(head, Insert(tail, c));
      }
    }
  }

  lemma HeadBelow(head: Change, rest: seq<Change>)
    requires SortedByName(rest)
    requires forall x :: x in rest ==> Less(ChangeName(head), ChangeName(x))
    ensures SortedByName([head] + rest)
  {
    var all := [head] + rest;
    forall i, j | 0 <= i < j < |all|
      ensures Less(ChangeName(all[i]), ChangeName(all[j]))
    {
      assert all[j] == rest[j - 1] && rest[j - 1] in rest;
      if i > 0 {
        assert all[i] == rest[i - 1];
      }
    }
  }

  ghost predicate DistinctNames(changes: seq<Change>) {
    forall i, j :: 0 <= i < j < |changes| ==> ChangeName(changes[i]) != ChangeName(changes[j])
  }

  /** `changes.sort_by(name)` on changes with distinct names. */
  method SortChanges(changes: seq<Change>) returns (r: seq<Change>)
    requires DistinctNames(changes)
    ensures SortedByName(r)
    ensures forall c :: c in r <==> c in changes
  {
    r := [];
    for k := 0 to |changes|
      invariant SortedByName(r)
      invariant forall c :: c in r <==> c in changes[..k]
    {
      InsertSorted(r, changes[k]);
      r := Insert(r, changes[k]);
      assert changes[..k + 1] == changes[..k] + [changes[k]];
    }
    assert changes[..|changes|] == changes;
  }

  // ----- the poller -----

  class Poller {
    var known: Known

    constructor ()
      ensures known == map[]
    {
      known := map[];
    }

    /** `seed`: replace the baseline, report its size; a failed listing keeps the old one. */
    method Seed(listing: Listing) returns (r: Result<nat, int>)
      modifies this
      ensures listing.Err? ==> r == Err(listing.error) && known == old(known)
      ensures listing.Ok? ==> known == MapOf(listing.value) && r == Ok(|known|)
    {
      if listing.Err? {
        return Err(listing.error);
      }
      known := MapOf(listing.value);
      return Ok(|known|);
    }

    /** `poll`: the diff against the previous listing, which the new one replaces. */
    method Poll(listing: Listing) returns (r: Result<seq<Change>, int>)
      requires Keyed(known)
      modifies this
      ensures Keyed(known)
      ensures listing.Err? ==> r == Err(listing.error) && known == old(known)
      ensures listing.Ok? ==> r.Ok? && known == MapOf(listing.value) && IsDiff(old(known), known, r.value)
    {
      if listing.Err? {
        return Err(listing.error);
      }
      var current := BuildMap(listing.value);
      var appeared := CollectAppeared(known, current);
      var removed := CollectRemoved(known, current);
      assert DistinctNames(appeared + removed);
      var changes := SortChanges(appeared + removed);
      known := current;
      return Ok(changes);
    }
  }

  method BuildMap(pipes: seq<Info>) returns (m: Known)
    ensures m == MapOf(pipes)
  {
    m := map[];
    for i := 0 to |pipes|
      invariant m == MapOf(pipes[..i])
    {
      assert pipes[..i + 1][..i] == pipes[..i];
      m := m[pipes[i].name := pipes[i]];
    }
    assert pipes[..|pipes|] == pipes;
  }

  /** The first loop of `poll`, over the new map in whatever order it is iterated. */
  method CollectAppeared(before: Known, after: Known) returns (changes: seq<Change>)
    requires Keyed(after)
    ensures forall c :: c in changes <==> c.Appeared? && Reportable(before, after, c)
    ensures DistinctNames(changes)
  {
    changes := [];
    var left := after.Keys;
    while left != {}
      invariant left <= after.Keys
      invariant forall c :: c in changes <==> c.Appeared? && Reportable(before, after, c) && ChangeName(c) !in left
      invariant DistinctNames(changes)
      decreases |left|
    {
      var n :| n in left;
      if n !in before {
        assert forall i :: 0 <= i < |changes| ==> changes[i] in changes;
        changes := changes + [Appeared(after[n])];
      }
      left := left - {n};
    }
  }

  /** The second loop, over the old map. */
  method CollectRemoved(before: Known, after: Known) returns (changes: seq<Change>)
    requires Keyed(before)
    ensures forall c :: c in changes <==> c.Removed? && Reportable(before, after, c)
    ensures DistinctNames(changes)
  {
    changes := [];
    var left := before.Keys;
    while left != {}
      invariant left <= before.Keys
      invariant forall c :: c in changes <==> c.Removed? && Reportable(before, after, c) && ChangeName(c) !in left
      invariant DistinctNames(changes)
      decreases |left|
    {
      var n :| n in left;
      if n !in after {
        assert forall i :: 0 <= i < |changes| ==> changes[i] in changes;
        changes := changes + [Removed(before[n])];
      }
      left := left - {n};
    }
  }

  // ----- replaying the reports -----

  function Apply(names: set<Name>, c: Change): (s: set<Name>)
  {
    match c
    case Appeared(i) => names + {i.name}
    case Removed(i) => names - {i.name}
  }

  function Replay(names: set<Name>, changes: seq<Change>): (s: set<Name>)
    decreases |changes|
  {
    if changes == [] then names else Replay(Apply(names, changes[0]), changes[1..])
  }

  lemma {:induction false} ReplayMembers(names: set<Name>, changes: seq<Change>, n: Name)
    requires DistinctNames(changes)
    ensures n in Replay(names, changes)
            <==> (exists c :: c in changes && c.Appeared? && ChangeName(c) == n)
                 || (n in names && !exists c :: c in changes && c.Removed? && ChangeName(c) == n)
    decreases |changes|
  {
    if changes != [] {
      var head, tail := changes[0], changes[1..];
      assert changes == [head] + tail;
      ReplayMembers(Apply(names, head), tail, n);
      assert forall c :: c in tail ==> ChangeName(c) != ChangeName(head);
    }
  }

  lemma SortedIsDistinct(changes: seq<Change>)
    requires SortedByName(changes)
    ensures DistinctNames(changes)
  {
    forall i, j | 0 <= i < j < |changes|
      ensures ChangeName(changes[i]) != ChangeName(changes[j])
    {
      LessIrreflexive(ChangeName(changes[i]));
    }
  }

  /** Applying a report, in order, to the old names gives the new names. */
  lemma ReplayDiff(before: Known, after: Known, changes: seq<Change>)
    requires Keyed(before) && Keyed(after) && IsDiff(before, after, changes)
    ensures Replay(before.Keys, changes) == after.Keys
  {
    SortedIsDistinct(changes);
    forall n
      ensures n in Replay(before.Keys, changes) <==> n in after.Keys
    {
      ReplayMembers(before.Keys, changes, n);
      if n in after && n !in before {
        assert Reportable(before, after, Appeared(after[n]));
      }
      if n in before && n !in after {
        assert Reportable(before, after, Removed(before[n]));
      }
    }
  }

  /** No name is reported both as appeared and as removed. */
  lemma {:induction false} NotBoth(before: Known, after: Known, changes: seq<Change>, a: Info, b: Info)
    requires IsDiff(before, after, changes) && Appeared(a) in changes && Removed(b) in changes
    ensures a.name != b.name
  {
    assert Reportable(before, after, Appeared(a)) && Reportable(before, after, Removed(b));
  }

  ghost function SymmetricDifference(a: set<Name>, b: set<Name>): (s: set<Name>)
  {
    (a - b) + (b - a)
  }

  /** How many names two baselines do not share. */
  ghost function Distance(a: Known, b: Known): (n: nat)
  {
    |SymmetricDifference(a.Keys, b.Keys)|
  }

  /** A report has one change per name of the symmetric difference. */
  lemma DiffSize(before: Known, after: Known, changes: seq<Change>)
    requires Keyed(before) && Keyed(after) && IsDiff(before, after, changes)
    ensures |changes| == Distance(before, after)
  {
    SortedIsDistinct(changes);
    var names := set i | 0 <= i < |changes| :: ChangeName(changes[i]);
    DistinctCount(changes);
    forall n
      ensures n in names <==> n in SymmetricDifference(before.Keys, after.Keys)
    {
      if n in after && n !in before {
        var c := Appeared(after[n]);
        assert Reportable(before, after, c) && c in changes;
      }
      if n in before && n !in after {
        var c := Removed(before[n]);
        assert Reportable(before, after, c) && c in changes;
      }
      if n in names {
        var i :| 0 <= i < |changes| && ChangeName(changes[i]) == n;
        assert changes[i] in changes;
      }
    }
    assert names == SymmetricDifference(before.Keys, after.Keys);
  }

  lemma {:induction false} DistinctCount(changes: seq<Change>)
    requires DistinctNames(changes)
    ensures |set i | 0 <= i < |changes| :: ChangeName(changes[i])| == |changes|
  {
    if changes != [] {
      var n := |changes| - 1;
      var front := changes[..n];
      DistinctCount(front);
      var s := set i | 0 <= i < |changes| :: ChangeName(changes[i]);
      var t := set i | 0 <= i < |front| :: ChangeName(front[i]);
      assert ChangeName(changes[n]) !in t;
      assert s == t + {ChangeName(changes[n])};
    }
  }

  // ----- whole runs -----

  /** The first k listings succeeded. */
  ghost predicate Listed(listings: seq<Listing>, k: nat) {
    k <= |listings| && forall i :: 0 <= i < k ==> listings[i].Ok?
  }

  /** The baseline after k rounds of a run. */
  ghost function KnownAfter(seeded: Known, listings: seq<Listing>, k: nat): (m: Known)
    requires Listed(listings, k)
  {
    if k == 0 then seeded else MapOf(listings[k - 1].value)
  }

  function Flatten(reports: seq<seq<Change>>): (s: seq<Change>)
  {
    if reports == [] then [] else Flatten(reports[..|reports| - 1]) + reports[|reports| - 1]
  }

  lemma {:induction false} ReplayConcat(names: set<Name>, a: seq<Change>, b: seq<Change>)
    ensures Replay(names, a + b) == Replay(Replay(names, a), b)
    decreases |a|
  {
    if a == [] {
      assert a + b == b;
    } else {
      assert (a + b)[0] == a[0] && (a + b)[1..] == a[1..] + b;
      ReplayConcat(Apply(names, a[0]), a[1..], b);
    }
  }

  /** The symmetric differences of the first k rounds, summed. */
  ghost function TotalDifference(seeded: Known, listings: seq<Listing>, k: nat): (n: nat)
    requires Listed(listings, k)
  {
    if k == 0 then 0
    else
      TotalDifference(seeded, listings, k - 1)
      + Distance(KnownAfter(seeded, listings, k - 1), KnownAfter(seeded, listings, k))
  }

  /** The first round whose listing fails; the number of rounds if none does. */
  function FirstFailure(listings: seq<Listing>): (k: nat)
    ensures Listed(listings, k)
    ensures k < |listings| ==> listings[k].Err?
  {
    if listings == [] || listings[0].Err? then 0
    else
      var k := 1 + FirstFailure(listings[1..]);
      assert forall i :: 1 <= i < k ==> listings[i] == listings[1..][i - 1];
      k
  }

  lemma FailsFirstAt(listings: seq<Listing>, k: nat)
    requires Listed(listings, k) && (k < |listings| ==> listings[k].Err?)
    ensures FirstFailure(listings) == k
  {
  }

  /** What a run of rounds hands to its caller: a failed listing discards the reports of the rounds before it. */
  function Handed(r: Result<seq<seq<Change>>, int>): (changes: seq<Change>)
  {
    if r.Ok? then Flatten(r.value) else []
  }

  /** Round i of a run reported exactly its diff. */
  ghost predicate RoundReported(seeded: Known, listings: seq<Listing>, reports: seq<seq<Change>>, i: nat)
    requires i < |reports| && Listed(listings, i + 1)
  {
    IsDiff(KnownAfter(seeded, listings, i), KnownAfter(seeded, listings, i + 1), reports[i])
  }

  lemma ReportedSnoc(seeded: Known, listings: seq<Listing>, reports: seq<seq<Change>>, changes: seq<Change>)
    requires Listed(listings, |reports| + 1)
    requires forall i: nat :: i < |reports| ==> RoundReported(seeded, listings, reports, i)
    requires IsDiff(KnownAfter(seeded, listings, |reports|), KnownAfter(seeded, listings, |reports| + 1), changes)
    ensures forall i: nat :: i < |reports| + 1 ==> RoundReported(seeded, listings, reports + [changes], i)
  {
    forall i: nat | i < |reports| + 1
      ensures RoundReported(seeded, listings, reports + [changes], i)
    {
      if i < |reports| {
        assert RoundReported(seeded, listings, reports, i);
      }
    }
  }

  /**
   `poll_interval`: over every run of rounds the baseline is that of the last listing before the first
   failure. What the caller was handed, applied in order to the names known at the start, gives the
   names known now exactly if every listing succeeded or those names are the old ones.
   */
  method PollInterval(poller: Poller, listings: seq<Listing>) returns (r: Result<seq<seq<Change>>, int>)
    requires Keyed(poller.known)
    modifies poller
    ensures Keyed(poller.known)
    ensures poller.known == KnownAfter(old(poller.known), listings, FirstFailure(listings))
    ensures r.Ok? <==> FirstFailure(listings) == |listings|
    ensures r.Ok? ==> |r.value| == |listings| && Listed(listings, |listings|)
    ensures r.Ok? ==> forall i: nat :: i < |r.value| ==> RoundReported(old(poller.known), listings, r.value, i)
    ensures r.Ok? ==> Replay(old(poller.known.Keys), Flatten(r.value)) == poller.known.Keys
    ensures r.Err? ==> listings[FirstFailure(listings)] == Err(r.error)
    ensures Replay(old(poller.known.Keys), Handed(r)) == poller.known.Keys
            <==> r.Ok? || KnownAfter(old(poller.known), listings, FirstFailure(listings)).Keys == old(poller.known.Keys)
  {
    var reports: seq<seq<Change>> := [];
    for round := 0 to |listings|
      invariant Keyed(poller.known) && Listed(listings, round) && |reports| == round
      invariant forall i: nat :: i < round ==> RoundReported(old(poller.known), listings, reports, i)
      invariant Replay(old(poller.known.Keys), Flatten(reports)) == poller.known.Keys
      invariant poller.known == KnownAfter(old(poller.known), listings, round)
    {
      ghost var before := poller.known;
      var changes := poller.Poll(listings[round]);
      if changes.Err? {
        FailsFirstAt(listings, round);
        return Err(changes.error);
      }
      ReportedSnoc(old(poller.known), listings, reports, changes.value);
      ReplayDiff(before, poller.known, changes.value);
      ReplayConcat(old(poller.known.Keys), Flatten(reports), changes.value);
      assert (reports + [changes.value])[..round] == reports;
      reports := reports + [changes.value];
    }
    FailsFirstAt(listings, |listings|);
    return Ok(reports);
  }

  /** A pipe appears, then a listing fails: the pipe is known from then on and was reported to nobody. */
  lemma FailedRoundLosesReport(pipe: Info)
    ensures var listings := [Ok([pipe]), Err(5)];
            && FirstFailure(listings) == 1
            && KnownAfter(map[], listings, 1).Keys == {pipe.name}
            && Replay({}, []) != {pipe.name}
  {
    var listings: seq<Listing> := [Ok([pipe]), Err(5)];
    FailsFirstAt(listings, 1);
    SinglePipe(pipe);
  }

  lemma SinglePipe(pipe: Info)
    ensures MapOf([pipe]).Keys == {pipe.name}
  {
    assert [pipe][..0] == [] && [pipe][1..] == [];
  }

  function TotalLength(reports: seq<seq<Change>>): (n: nat)
  {
    if reports == [] then 0 else TotalLength(reports[..|reports| - 1]) + |reports[|reports| - 1]|
  }

  /**
   `poll_interval_with_callback`: `calls` is what the callback is given, round by round, up to the
   first failed listing, whose error is returned; else the total of the changes is.
   */
  method PollIntervalWithCallback(poller: Poller, listings: seq<Listing>)
    returns (r: Result<nat, int>, calls: seq<seq<Change>>)
    requires Keyed(poller.known)
    modifies poller
    ensures Keyed(poller.known) && Listed(listings, |calls|)
    ensures r.Ok? <==> |calls| == |listings|
    ensures r.Err? ==> listings[|calls|] == Err(r.error)
    ensures forall i: nat :: i < |calls| ==> RoundReported(old(poller.known), listings, calls, i)
    ensures r.Ok? ==> r.value == TotalLength(calls)
    ensures poller.known == KnownAfter(old(poller.known), listings, |calls|)
  {
    ghost var seeded := poller.known;
    var total := 0;
    calls := [];
    for round := 0 to |listings|
      invariant Keyed(poller.known) && Listed(listings, round) && |calls| == round
      invariant poller.known == KnownAfter(seeded, listings, round)
      invariant forall i: nat :: i < round ==> RoundReported(seeded, listings, calls, i)
      invariant total == TotalLength(calls)
    {
      var changes := poller.Poll(listings[round]);
      if changes.Err? {
        return Err(changes.error), calls;
      }
      total := total + |changes.value|;
      ghost var before := calls;
      calls := calls + [changes.value];
      assert calls[..round] == before;
      ReportedSnoc(seeded, listings, before, changes.value);
    }
    return Ok(total), calls;
  }

  /** The total is the sum of the symmetric-difference sizes of successive baselines. */
  lemma {:induction false} TotalIsDifference(seeded: Known, listings: seq<Listing>, calls: seq<seq<Change>>)
    requires Keyed(seeded) && Listed(listings, |calls|)
    requires forall i: nat :: i < |calls| ==> RoundReported(seeded, listings, calls, i)
    ensures TotalLength(calls) == TotalDifference(seeded, listings, |calls|)
  {
    if calls != [] {
      var n := |calls| - 1;
      forall i: nat | i < n
        ensures RoundReported(seeded, listings, calls[..n], i)
      {
        assert RoundReported(seeded, listings, calls, i);
      }
      TotalIsDifference(seeded, listings, calls[..n]);
      LastRoundSize(seeded, listings, calls, n);
    }
  }

  lemma LastRoundSize(seeded: Known, listings: seq<Listing>, calls: seq<seq<Change>>, n: nat)
    requires Keyed(seeded) && Listed(listings, n + 1) && n < |calls| && RoundReported(seeded, listings, calls, n)
    ensures |calls[n]| == Distance(KnownAfter(seeded, listings, n), KnownAfter(seeded, listings, n + 1))
  {
    DiffSize(KnownAfter(seeded, listings, n), KnownAfter(seeded, listings, n + 1), calls[n]);
  }
}
