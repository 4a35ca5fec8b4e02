/** Listings of a map from value to priority: two parallel sequences that hold each entry once. */
module Listings {
  import opened Common
  import opened Indexing
  import opened Sorting

  /** A key and a value; in queue listings the key is the priority. */
  datatype Entry<+K, +V> = Entry(key: K, value: V)

  function Keys<K, V>(entries: seq<Entry<K, V>>): (r: seq<K>) {
    seq(|entries|, i requires 0 <= i < |entries| => entries[i].key)
  }

  function Values<K, V>(entries: seq<Entry<K, V>>): (r: seq<V>) {
    seq(|entries|, i requires 0 <= i < |entries| => entries[i].value)
  }

  /** Same values for fewer keys. */
  ghost predicate IsRestriction<K, V>(small: map<K, V>, big: map<K, V>) {
    forall k :: k in small ==> k in big && small[k] == big[k]
  }

  /** No entry of `m` has a smaller priority than entry `v`. */
  ghost predicate IsMinimal<V>(m: map<V, int>, v: V) {
    v in m && forall w :: w in m ==> m[v] <= m[w]
  }

  /** `ps` and `vs` list the entries of `m`, each exactly once. */
  ghost predicate Lists<V(!new)>(m: map<V, int>, ps: seq<int>, vs: seq<V>) {
    && |ps| == |vs| && Distinct(vs)
    && (forall i :: 0 <= i < |vs| ==> vs[i] in m && m[vs[i]] == ps[i])
    && (forall v :: v in m ==> v in vs)
  }

  /** Entries left `m` smallest first until `now` remained: `ps` and `vs` list what left, in
      ascending order, and nothing that left is above anything that remained. */
  ghost predicate Drained<V(!new)>(m: map<V, int>, now: map<V, int>, ps: seq<int>, vs: seq<V>) {
    && IsRestriction(now, m)
    && Lists(m - now.Keys, ps, vs)
    && Ascending(ps)
    && forall i, v :: 0 <= i < |ps| && v in now ==> ps[i] <= now[v]
  }

  lemma NothingDrained<V(!new)>(m: map<V, int>)
    ensures Drained(m, m, [], [])
  {}

  lemma DrainStep<V(!new)>(m: map<V, int>, now: map<V, int>, ps: seq<int>, vs: seq<V>, v: V)
    requires Drained(m, now, ps, vs) && IsMinimal(now, v)
    ensures Drained(m, now - {v}, ps + [now[v]], vs + [v])
    ensures |now - {v}| == |now| - 1
  {}

  lemma ListsSize<V(!new)>(m: map<V, int>, ps: seq<int>, vs: seq<V>)
    requires Lists(m, ps, vs)
    ensures |vs| == |m|
  {
    DistinctCardinality(vs);
    assert m.Keys == set v | v in vs;
    assert |m| == |m.Keys|;
  }

  lemma IndexedLists<V(!new)>(values: seq<V>, priorities: seq<int>, index: map<V, nat>)
    requires |values| == |priorities| && Indexed(values, index)
    ensures Lists(Mapping(values, priorities, index), priorities, values)
  {}

  lemma TwiceInMultiset<T>(s: seq<T>, i: nat, j: nat)
    requires i < j < |s| && s[i] == s[j]
    ensures multiset(s)[s[i]] >= 2
  {
    assert s == s[..j] + s[j..];
    assert s[i] in s[..j] && s[j] in s[j..] by {
      assert s[..j][i] == s[i];
      assert s[j..][0] == s[j];
    }
  }

  lemma OnceInMultiset<T(!new)>(s: seq<T>, x: T)
    requires Distinct(s)
    ensures multiset(s)[x] <= 1
  {
    if s != [] {
      var n := |s| - 1;
      assert s == s[..n] + [s[n]];
      OnceInMultiset(s[..n], x);
    }
  }

  /** Being free of duplicates does not depend on the order. */
  lemma DistinctPermute<T(!new)>(a: seq<T>, b: seq<T>)
    requires multiset(a) == multiset(b) && Distinct(a)
    ensures Distinct(b)
  {
    forall i, j | 0 <= i < j < |b| ensures b[i] != b[j] {
      if b[i] == b[j] {
        TwiceInMultiset(b, i, j);
        OnceInMultiset(a, b[i]);
        assert false;
      }
    }
  }

  lemma DistinctPairs<V(!new)>(a: seq<Entry<int, V>>)
    requires Distinct(Values(a))
    ensures Distinct(a)
  {
    forall i, j | 0 <= i < j < |a| ensures a[i] != a[j] {
      assert Values(a)[i] != Values(a)[j];
    }
  }

  /** Different pairs taken from a listing have different values. */
  lemma DistinctValues<V(!new)>(a: seq<Entry<int, V>>, b: seq<Entry<int, V>>, m: map<V, int>)
    requires multiset(a) == multiset(b) && Lists(m, Keys(a), Values(a)) && Distinct(b)
    ensures Distinct(Values(b))
  {
    forall i | 0 <= i < |b| ensures b[i].value in m && m[b[i].value] == b[i].key {
      assert b[i] in multiset(a);
      var j :| 0 <= j < |a| && a[j] == b[i];
      assert Values(a)[j] == b[i].value && Keys(a)[j] == b[i].key;
    }
    forall i, j | 0 <= i < j < |b| ensures Values(b)[i] != Values(b)[j] {
      assert b[i] != b[j];
    }
  }

  /** Reordering the pairs of a listing gives a listing. */
  lemma ListsPermute<V(!new)>(m: map<V, int>, a: seq<Entry<int, V>>, b: seq<Entry<int, V>>)
    requires multiset(a) == multiset(b) && Lists(m, Keys(a), Values(a))
    ensures Lists(m, Keys(b), Values(b))
  {
    DistinctPairs(a);
    DistinctPermute(a, b);
    DistinctValues(a, b, m);
    forall i | 0 <= i < |b| ensures b[i].value in m && m[b[i].value] == b[i].key {
      assert b[i] in multiset(a);
      var j :| 0 <= j < |a| && a[j] == b[i];
      assert Values(a)[j] == b[i].value && Keys(a)[j] == b[i].key;
    }
    forall v | v in m ensures v in Values(b) {
      var j :| 0 <= j < |a| && Values(a)[j] == v;
      assert a[j] in multiset(b);
      var i :| 0 <= i < |b| && b[i] == a[j];
      assert Values(b)[i] == v;
    }
  }

  function Without<T>(s: seq<T>, j: nat): (r: seq<T>)
    requires j < |s|
    ensures multiset(s) == multiset(r) + multiset{s[j]}
  {
    assert s == s[..j] + [s[j]] + s[j + 1..];
    s[..j] + s[j + 1..]
  }

  lemma ListsDrop<V(!new)>(m: map<V, int>, ps: seq<int>, vs: seq<V>, j: nat)
    requires Lists(m, ps, vs) && j < |vs|
    ensures Lists(m - {vs[j]}, Without(ps, j), Without(vs, j))
  {}

  lemma {:induction false} ListingsPermute<V(!new)>(
        m: map<V, int>, ps1: seq<int>, vs1: seq<V>, ps2: seq<int>, vs2: seq<V>)
    requires Lists(m, ps1, vs1) && Lists(m, ps2, vs2)
    ensures multiset(ps1) == multiset(ps2)
    decreases |vs1|
  {
    ListsSize(m, ps1, vs1);
    ListsSize(m, ps2, vs2);
    if vs1 != [] {
      var v := vs1[0];
      var j :| 0 <= j < |vs2| && vs2[j] == v;
      ListsDrop(m, ps1, vs1, 0);
      ListsDrop(m, ps2, vs2, j);
      ListingsPermute(m - {v}, Without(ps1, 0), Without(vs1, 0), Without(ps2, j), Without(vs2, j));
    }
  }

  /** Two ascending listings of the same entries have the same priorities, position by position,
      however each of them ordered entries with equal priority. */
  lemma SortedListingsAgree<V(!new)>(m: map<V, int>, ps1: seq<int>, vs1: seq<V>, ps2: seq<int>, vs2: seq<V>)
    requires Lists(m, ps1, vs1) && Ascending(ps1)
    requires Lists(m, ps2, vs2) && Ascending(ps2)
    ensures ps1 == ps2
  {
    ListingsPermute(m, ps1, vs1, ps2, vs2);
    AscendingUnique(ps1, ps2);
  }
}
