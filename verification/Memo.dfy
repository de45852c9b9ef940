/**
 A memo table over a loader that may fail: look the key up, otherwise load, and keep only what
 loaded. Both tables of the schema cache (src/etw/schema.rs) work this way.
 */
module Memo {
  import opened Wrappers

  /** The answer for a query and the table after it. */
  function Lookup<Q, K, V>(table: map<K, V>, key: Q -> K, load: Q -> Option<V>, q: Q): (r: (Option<V>, map<K, V>))
  {
    if key(q) in table then (Some(table[key(q)]), table)
    else
      var loaded := load(q);
      if loaded.None? then (None, table) else (loaded, table[key(q) := loaded.value])
  }

  /** The answers for a sequence of queries. */
  function Answers<Q, K, V>(table: map<K, V>, key: Q -> K, load: Q -> Option<V>, queries: seq<Q>): (r: seq<Option<V>>)
    ensures |r| == |queries|
    decreases |queries|
  {
    if queries == [] then []
    else
      var (answer, after) := Lookup(table, key, load, queries[0]);
      [answer] + Answers(after, key, load, queries[1..])
  }

  /** The answers without a table. */
  function Fresh<Q, V>(load: Q -> Option<V>, queries: seq<Q>): (r: seq<Option<V>>)
    ensures |r| == |queries|
  {
    if queries == [] then [] else [load(queries[0])] + Fresh(load, queries[1..])
  }

  /** A query that loaded fixes what every query with its key loads. */
  ghost predicate DependsOnKey<Q(!new), K, V>(key: Q -> K, load: Q -> Option<V>) {
    forall a, b :: key(a) == key(b) && load(a).Some? ==> load(b) == load(a)
  }

  /** Some query with this key loads this value. */
  ghost predicate Loads<Q(!new), K, V>(key: Q -> K, load: Q -> Option<V>, k: K, v: V) {
    exists q :: key(q) == k && load(q) == Some(v)
  }

  /** The table holds only what loaded: a failed load leaves no trace. */
  ghost predicate Backed<Q(!new), K, V>(table: map<K, V>, key: Q -> K, load: Q -> Option<V>) {
    forall k :: k in table ==> Loads(key, load, k, table[k])
  }

  lemma {:induction false} LookupKeepsBacked<Q(!new), K, V>(table: map<K, V>, key: Q -> K, load: Q -> Option<V>, q: Q)
    requires Backed(table, key, load)
    ensures Backed(Lookup(table, key, load, q).1, key, load)
  {
    var after := Lookup(table, key, load, q).1;
    forall k | k in after ensures Loads(key, load, k, after[k]) {
      if k in table && (k != key(q) || after == table) {
        assert Loads(key, load, k, table[k]);
      } else {
        assert key(q) == k && load(q) == Some(after[k]);
      }
    }
  }

  /** Where loads depend on the key alone, a backed table answers as the loader would. */
  lemma {:induction false} LookupIsFresh<Q(!new), K, V>(table: map<K, V>, key: Q -> K, load: Q -> Option<V>, q: Q)
    requires Backed(table, key, load) && DependsOnKey(key, load)
    ensures Lookup(table, key, load, q).0 == load(q)
  {
    if key(q) in table {
      assert Loads(key, load, key(q), table[key(q)]);
    }
  }

  lemma {:induction false} AnswersAreFresh<Q(!new), K, V>(
    table: map<K, V>, key: Q -> K, load: Q -> Option<V>, queries: seq<Q>)
    requires Backed(table, key, load) && DependsOnKey(key, load)
    ensures Answers(table, key, load, queries) == Fresh(load, queries)
    decreases |queries|
  {
    if queries != [] {
      LookupIsFresh(table, key, load, queries[0]);
      LookupKeepsBacked(table, key, load, queries[0]);
      AnswersAreFresh(Lookup(table, key, load, queries[0]).1, key, load, queries[1..]);
    }
  }

  ghost predicate AlwaysFresh<Q(!new), K, V>(key: Q -> K, load: Q -> Option<V>) {
    forall queries :: Answers(map[], key, load, queries) == Fresh(load, queries)
  }

  /** Two queries, one after the other. */
  lemma TwoQueries<Q, K, V>(key: Q -> K, load: Q -> Option<V>, a: Q, b: Q)
    requires key(a) == key(b) && load(a).Some?
    ensures Answers(map[], key, load, [a, b]) == [load(a), load(a)]
    ensures Fresh(load, [a, b]) == [load(a), load(b)]
  {
    var after := Lookup(map[], key, load, a).1;
    assert [a, b][1..] == [b] && [b][1..] == [];
    assert Answers(after, key, load, [b]) == [load(a)] + [];
    assert Fresh(load, [b]) == [load(b)] + [];
  }

  /** From an empty table, every sequence of queries is answered as afresh exactly if loads depend on the key alone. */
  lemma {:induction false} MemoIsFreshIff<Q(!new), K, V>(key: Q -> K, load: Q -> Option<V>)
    ensures AlwaysFresh(key, load) <==> DependsOnKey(key, load)
  {
    if DependsOnKey(key, load) {
      forall queries ensures Answers(map[], key, load, queries) == Fresh(load, queries) {
        AnswersAreFresh(map[], key, load, queries);
      }
    }
    if AlwaysFresh(key, load) {
      forall a, b | key(a) == key(b) && load(a).Some? ensures load(b) == load(a) {
        TwoQueries(key, load, a, b);
        assert Answers(map[], key, load, [a, b])[1] == Fresh(load, [a, b])[1];
      }
    }
  }
}
