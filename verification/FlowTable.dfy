/** A map of bounded size that forgets the entry used least recently. */
module FlowTable {
  import opened Bytes

  /** `s` without `k`. */
  function Without<K(==)>(s: seq<K>, k: K): seq<K> {
    if s == [] then [] else (if s[0] == k then [] else [s[0]]) + Without(s[1..], k)
  }

  /** The keys in the order of use, after `k` was used. */
  function Touched<K(==)>(s: seq<K>, k: K): seq<K> { Without(s, k) + [k] }

  /** The last `n` of `s`. */
  function Last<K>(s: seq<K>, n: nat): seq<K> { if |s| <= n then s else s[|s| - n..] }

  predicate Distinct<K(==)>(s: seq<K>) { forall i, j :: 0 <= i < j < |s| ==> s[i] != s[j] }

  lemma {:induction false} WithoutKeeps<K>(s: seq<K>, k: K)
    ensures forall x :: x in Without(s, k) <==> x in s && x != k
    ensures k !in s ==> Without(s, k) == s
    ensures |Without(s, k)| <= |s|
  {
    if s != [] {
      WithoutKeeps(s[1..], k);
      assert forall x :: x in s <==> x == s[0] || x in s[1..];
    }
  }

  lemma DistinctCons<K>(x: K, s: seq<K>)
    requires Distinct(s) && x !in s
    ensures Distinct([x] + s)
  {
  }

  lemma {:induction false} WithoutDistinct<K>(s: seq<K>, k: K)
    requires Distinct(s)
    ensures Distinct(Without(s, k)) && |Without(s, k)| == |s| - if k in s then 1 else 0
  {
    if s != [] {
      assert Distinct(s[1..]) && s[0] !in s[1..];
      WithoutDistinct(s[1..], k);
      WithoutKeeps(s[1..], k);
      if s[0] != k {
        DistinctCons(s[0], Without(s[1..], k));
      }
      assert k in s <==> k == s[0] || k in s[1..];
    }
  }

  lemma {:induction false} WithoutSplit<K>(a: seq<K>, b: seq<K>, k: K)
    ensures Without(a + b, k) == Without(a, k) + Without(b, k)
  {
    if a == [] {
      assert a + b == b;
    } else {
      assert (a + b)[1..] == a[1..] + b;
      WithoutSplit(a[1..], b, k);
    }
  }

  // --- what the table holds --------------------------------------------------

  /** The keys of a table of `cap` entries in order of use, after `k` is looked up and inserted if it is missing. */
  function Access<K(==)>(order: seq<K>, k: K, cap: nat): seq<K> {
    if k in order then Touched(order, k)
    else if |order| >= cap && order != [] then order[1..] + [k]
    else order + [k]
  }

  function AccessAll<K(==)>(ks: seq<K>, cap: nat): seq<K> {
    if ks == [] then [] else Access(AccessAll(ks[..|ks| - 1], cap), ks[|ks| - 1], cap)
  }

  /** All the keys ever used, in order of last use. */
  function Recency<K(==)>(ks: seq<K>): seq<K> {
    if ks == [] then [] else Touched(Recency(ks[..|ks| - 1]), ks[|ks| - 1])
  }

  lemma {:induction false} RecencyDistinct<K>(ks: seq<K>)
    ensures Distinct(Recency(ks)) && forall x :: x in Recency(ks) <==> x in ks
  {
    if ks != [] {
      var init, k := ks[..|ks| - 1], ks[|ks| - 1];
      RecencyDistinct(init);
      WithoutDistinct(Recency(init), k);
      WithoutKeeps(Recency(init), k);
      assert ks == init + [k];
    }
  }

  lemma AccessIsLast<K>(all: seq<K>, k: K, cap: nat)
    requires cap >= 1 && Distinct(all)
    ensures Access(Last(all, cap), k, cap) == Last(Touched(all, k), cap)
  {
    var n := if |all| <= cap then 0 else |all| - cap;
    AccessParts(all[..n], all[n..], k, cap);
    assert all == all[..n] + all[n..];
  }

  lemma AccessParts<K>(gone: seq<K>, kept: seq<K>, k: K, cap: nat)
    requires cap >= 1 && Distinct(gone + kept) && |kept| <= cap && (gone != [] ==> |kept| == cap)
    ensures Access(kept, k, cap) == Last(Touched(gone + kept, k), cap)
  {
    var all := gone + kept;
    assert Distinct(kept) by {
      assert forall i :: 0 <= i < |kept| ==> kept[i] == all[|gone| + i];
    }
    WithoutSplit(gone, kept, k);
    WithoutDistinct(kept, k);
    WithoutKeeps(kept, k);
    if k in kept {
      KeptIsNotGone(gone, kept, k);
      WithoutKeeps(gone, k);
      Assoc(gone, Without(kept, k), [k]);
    } else {
      Assoc(Without(gone, k), kept, [k]);
    }
  }

  lemma KeptIsNotGone<K>(gone: seq<K>, kept: seq<K>, k: K)
    requires Distinct(gone + kept) && k in kept
    ensures k !in gone
  {
    var j :| 0 <= j < |kept| && kept[j] == k;
    assert (gone + kept)[|gone| + j] == k;
    assert forall i :: 0 <= i < |gone| ==> (gone + kept)[i] == gone[i];
  }

  /** A cache that is asked for keys and filled on each miss holds exactly the most recently used distinct keys, as
      many as it has room for. */
  lemma {:induction false} HoldsMostRecent<K>(ks: seq<K>, cap: nat)
    requires cap >= 1
    ensures AccessAll(ks, cap) == Last(Recency(ks), cap)
  {
    if ks != [] {
      HoldsMostRecent(ks[..|ks| - 1], cap);
      RecencyDistinct(ks[..|ks| - 1]);
      AccessIsLast(Recency(ks[..|ks| - 1]), ks[|ks| - 1], cap);
    }
  }

  // --- stamps ----------------------------------------------------------------

  datatype Entry<V> = Entry(value: V, lastUsed: nat)

  /** Along `s` the stamps grow. */
  ghost predicate Ascends<K(!new), V>(s: seq<K>, m: map<K, Entry<V>>) {
    s == [] || (s[0] in m && (forall x :: x in s[1..] ==> x in m && m[s[0]].lastUsed < m[x].lastUsed) && Ascends(s[1..], m))
  }

  lemma {:induction false} AscendsDistinct<K(!new), V>(s: seq<K>, m: map<K, Entry<V>>)
    requires Ascends(s, m)
    ensures Distinct(s) && forall x :: x in s ==> x in m && m[s[0]].lastUsed <= m[x].lastUsed
  {
    if s != [] {
      AscendsDistinct(s[1..], m);
      DistinctCons(s[0], s[1..]);
      assert [s[0]] + s[1..] == s;
      assert forall x :: x in s <==> x == s[0] || x in s[1..];
    }
  }

  lemma {:induction false} AscendsAgree<K(!new), V>(s: seq<K>, m: map<K, Entry<V>>, m': map<K, Entry<V>>)
    requires Ascends(s, m) && forall x :: x in s && x in m ==> x in m' && m'[x].lastUsed == m[x].lastUsed
    ensures Ascends(s, m')
  {
    if s != [] {
      assert forall x :: x in s[1..] ==> x in s;
      assert s[0] in s;
      AscendsAgree(s[1..], m, m');
    }
  }

  lemma {:induction false} WithoutAscends<K(!new), V>(s: seq<K>, k: K, m: map<K, Entry<V>>)
    requires Ascends(s, m)
    ensures Ascends(Without(s, k), m)
  {
    if s != [] {
      WithoutAscends(s[1..], k, m);
      WithoutKeeps(s[1..], k);
      var rest := Without(s[1..], k);
      assert ([s[0]] + rest)[1..] == rest;
      assert s[0] == k ==> Without(s, k) == rest;
    }
  }

  lemma {:induction false} AppendAscends<K(!new), V>(s: seq<K>, k: K, m: map<K, Entry<V>>)
    requires Ascends(s, m) && k in m && forall x :: x in s && x in m ==> m[x].lastUsed < m[k].lastUsed
    ensures Ascends(s + [k], m)
  {
    if s == [] {
      assert s + [k] == [k];
    } else {
      assert forall x :: x in s[1..] ==> x in s;
      AppendAscends(s[1..], k, m);
      assert (s + [k])[1..] == s[1..] + [k];
      assert s[0] in s;
    }
  }

  /** A key given the newest stamp comes last. */
  lemma StampAscends<K(!new), V>(s: seq<K>, k: K, m: map<K, Entry<V>>, e: Entry<V>)
    requires Ascends(s, m) && forall x :: x in m ==> m[x].lastUsed < e.lastUsed
    ensures Ascends(Touched(s, k), m[k := e])
  {
    WithoutAscends(s, k, m);
    WithoutKeeps(s, k);
    AscendsAgree(Without(s, k), m, m[k := e]);
    AscendsDistinct(s, m);
    AppendAscends(Without(s, k), k, m[k := e]);
  }

  lemma RemoveAscends<K(!new), V>(s: seq<K>, k: K, m: map<K, Entry<V>>)
    requires Ascends(s, m)
    ensures Ascends(Without(s, k), m - {k})
  {
    WithoutAscends(s, k, m);
    WithoutKeeps(s, k);
    AscendsAgree(Without(s, k), m, m - {k});
  }

  lemma Room<K(!new), V>(s: seq<K>, k: K, m: map<K, Entry<V>>)
    requires Ascends(s, m)
    ensures |Without(s, k)| == |s| - if k in s then 1 else 0
    ensures k !in s ==> Without(s, k) == s
  {
    AscendsDistinct(s, m);
    WithoutDistinct(s, k);
    WithoutKeeps(s, k);
  }

  lemma DropOldest<K(!new), V>(s: seq<K>, m: map<K, Entry<V>>)
    requires s != [] && Ascends(s, m)
    ensures Ascends(s[1..], m - {s[0]}) && forall k :: k in s[1..] <==> k in s && k != s[0]
  {
    assert forall x :: x in s <==> x == s[0] || x in s[1..];
    assert s[0] !in s[1..];
    AscendsAgree(s[1..], m, m - {s[0]});
  }

  lemma {:induction false} KeysOfOrder<K>(s: seq<K>, keys: set<K>)
    requires Distinct(s) && forall k :: k in s <==> k in keys
    ensures |keys| == |s|
  {
    if s == [] {
      assert keys == {};
    } else {
      assert forall k :: k in s <==> k == s[0] || k in s[1..];
      assert Distinct(s[1..]) && s[0] !in s[1..];
      KeysOfOrder(s[1..], keys - {s[0]});
    }
  }

  ghost function ValuesOf<K(!new), V>(m: map<K, Entry<V>>): map<K, V> { map k | k in m :: m[k].value }

  lemma ValuesWithout<K(!new), V>(m: map<K, Entry<V>>, gone: set<K>)
    ensures ValuesOf(m - gone) == ValuesOf(m) - gone
  {
  }

  // --- the table -------------------------------------------------------------

  class FlowTable<K(==, !new), V> {
    var entries: map<K, Entry<V>>
    var capacity: nat
    var tick: nat
    /** The keys, least recently used first. */
    ghost var order: seq<K>

    ghost predicate Valid() reads this {
      && capacity >= 1 && |order| <= capacity && Ascends(order, entries)
      && (forall k :: k in order <==> k in entries)
      && (forall k :: k in entries ==> entries[k].lastUsed <= tick)
    }

    /** The cached values. */
    ghost function Values(): map<K, V> reads this { ValuesOf(entries) }

    constructor (cap: nat)
      ensures Valid() && order == [] && Values() == map[] && capacity == Max(cap, 1)
    {
      entries, capacity, tick, order := map[], Max(cap, 1), 0, [];
    }

    lemma SizeIsLength()
      requires Valid()
      ensures |entries| == |order|
    {
      AscendsDistinct(order, entries);
      KeysOfOrder(order, entries.Keys);
    }

    method Get(key: K) returns (r: Option<V>)
      requires Valid()
      modifies this
      ensures Valid() && capacity == old(capacity) && Values() == old(Values())
      ensures r == if key in old(Values()) then Some(old(Values())[key]) else None
      ensures order == if key in old(Values()) then Touched(old(order), key) else old(order)
    {
      tick := tick + 1;
      if key !in entries {
        return None;
      }
      r := Some(entries[key].value);
      Room(order, key, entries);
      Stamp(key, entries[key].value);
    }

    /** Gives `key` the newest stamp. */
    method Stamp(key: K, value: V)
      requires |Without(order, key)| < capacity && Ascends(order, entries)
      requires forall k :: k in order <==> k in entries
      requires forall k :: k in entries ==> entries[k].lastUsed < tick
      modifies this`entries, this`order
      ensures Valid() && Values() == old(Values())[key := value] && order == Touched(old(order), key)
    {
      WithoutKeeps(order, key);
      StampAscends(order, key, entries, Entry(value, tick));
      entries := entries[key := Entry(value, tick)];
      order := Touched(order, key);
    }

    method Insert(key: K, value: V)
      requires Valid()
      modifies this
      ensures Valid() && capacity == old(capacity)
      ensures var gone := if key !in old(Values()) && |old(order)| >= capacity then {old(order)[0]} else {};
              && Values() == (old(Values()) - gone)[key := value]
              && order == if gone != {} then old(order)[1..] + [key] else Touched(old(order), key)
    {
      tick := tick + 1;
      MakeRoom(key);
      Stamp(key, value);
    }

    method MakeRoom(key: K)
      requires Valid()
      modifies this`entries, this`order
      ensures Valid() && |Without(order, key)| < capacity
      ensures var gone := if key !in old(Values()) && |old(order)| >= capacity then {old(order)[0]} else {};
              && entries == old(entries) - gone && Values() == old(Values()) - gone
              && order == if gone != {} then old(order)[1..] else old(order)
      ensures key !in order ==> Touched(order, key) == order + [key]
    {
      SizeIsLength();
      Room(order, key, entries);
      if key !in entries && |entries| >= capacity {
        ValuesWithout(entries, {order[0]});
        EvictLru();
        Room(order, key, entries);
      } else {
        ValuesWithout(entries, {});
      }
    }

    /** Distinct stamps leave no choice: the entry that goes is the one used least recently. */
    method EvictLru()
      requires Valid() && order != []
      modifies this`entries, this`order
      ensures Valid() && order == old(order)[1..] && entries == old(entries) - {old(order)[0]}
    {
      var key := Oldest();
      DropOldest(order, entries);
      entries := entries - {key};
      order := order[1..];
    }

    /** The key with the smallest stamp, in whatever order the entries are visited. */
    method Oldest() returns (key: K)
      requires Valid() && order != []
      ensures key == order[0]
    {
      var keys := entries.Keys;
      assert order[0] in keys;
      key :| key in keys;
      var left := keys - {key};
      while left != {}
        invariant key in keys && left <= keys
        invariant forall k :: k in keys && k !in left ==> entries[key].lastUsed <= entries[k].lastUsed
        decreases |left|
      {
        var k :| k in left;
        if entries[k].lastUsed < entries[key].lastUsed {
          key := k;
        }
        left := left - {k};
      }
      OldestIsFirst(key);
    }

    lemma OldestIsFirst(key: K)
      requires Valid() && order != [] && key in entries
      requires forall k :: k in entries ==> entries[key].lastUsed <= entries[k].lastUsed
      ensures key == order[0]
    {
      assert order[0] in order;
      assert forall x :: x in order <==> x == order[0] || x in order[1..];
    }

    method Remove(key: K) returns (r: Option<V>)
      requires Valid()
      modifies this`entries, this`order
      ensures Valid() && Values() == old(Values()) - {key} && order == Without(old(order), key)
      ensures r == if key in old(Values()) then Some(old(Values())[key]) else None
    {
      r := if key in entries then Some(entries[key].value) else None;
      WithoutKeeps(order, key);
      RemoveAscends(order, key, entries);
      Room(order, key, entries);
      ValuesWithout(entries, {key});
      entries := entries - {key};
      order := Without(order, key);
    }
  }
}
