/** Cache-key canonicalisation for cached queries: the bind parameters
    become a key-sorted sequence of (name, serialised value) pairs, and the
    run function rebuilds the bind map from that sequence. The serialiser
    (`json.dumps` with sorted keys) and its inverse (`json.loads`) are
    parameters; their properties are stated where a lemma needs them. */
module Cache {
  import opened Values
  import opened Connection

  /** A cache-key entry: a parameter name and its serialised value. */
  type Pair = (string, string)

  // ---------------------------------------------------------------------
  // Python's ordering of strings

  /** `a < b` on Python strings: lexicographic by code point, a proper
      prefix first. */
  predicate Less(a: string, b: string): (r: bool)
    ensures r ==> a != b
    ensures |a| <= |b| && a == b[..|a|] ==> (r <==> |a| < |b|)
    decreases |a|
  {
    if |a| == 0 then |b| > 0
    else if |b| == 0 then false
    else if a[0] != b[0] then a[0] < b[0]
    else Less(a[1..], b[1..])
  }

  lemma {:induction false} LessIrreflexive(a: string)
    ensures !Less(a, a)
    decreases |a|
  {
    if |a| > 0 {
      LessIrreflexive(a[1..]);
    }
  }

  lemma {:induction false} LessTransitive(a: string, b: string, c: string)
    requires Less(a, b) && Less(b, c)
    ensures Less(a, c)
    decreases |a|
  {
    if |a| > 0 && a[0] == b[0] && b[0] == c[0] {
      LessTransitive(a[1..], b[1..], c[1..]);
    }
  }

  lemma {:induction false} LessTotal(a: string, b: string)
    requires a != b
    ensures Less(a, b) || Less(b, a)
    decreases |a|
  {
    if |a| > 0 && |b| > 0 && a[0] == b[0] {
      assert a == [a[0]] + a[1..] && b == [b[0]] + b[1..];
      LessTotal(a[1..], b[1..]);
    }
  }

  lemma LessAsymmetric(a: string, b: string)
    requires Less(a, b)
    ensures !Less(b, a)
  {
    if Less(b, a) {
      LessTransitive(a, b, a);
      LessIrreflexive(a);
    }
  }

  // ---------------------------------------------------------------------
  // sorted(...)

  ghost predicate StrictlySorted(s: seq<Pair>)
  {
    forall i, j :: 0 <= i < j < |s| ==> Less(s[i].0, s[j].0)
  }

  function Insert(x: Pair, s: seq<Pair>): seq<Pair>
  {
    if s == [] then [x]
    else if Less(s[0].0, x.0) then [s[0]] + Insert(x, s[1..])
    else [x] + s
  }

  /** `sorted` on pairs whose names differ, by insertion: it rearranges the
      pairs and neither drops nor duplicates one. */
  function Sort(s: seq<Pair>): (r: seq<Pair>)
    ensures multiset(r) == multiset(s)
  {
    if s == [] then []
    else
      var rest := Sort(s[1..]);
      InsertPermutes(s[0], rest);
      assert s == [s[0]] + s[1..];
      Insert(s[0], rest)
  }

  lemma {:induction false} InsertPermutes(x: Pair, s: seq<Pair>)
    ensures multiset(Insert(x, s)) == multiset(s) + multiset{x}
  {
    if s != [] && Less(s[0].0, x.0) {
      InsertPermutes(x, s[1..]);
      assert s == [s[0]] + s[1..];
    }
  }

  lemma {:induction false} InsertSorted(x: Pair, s: seq<Pair>)
    requires StrictlySorted(s)
    requires forall i :: 0 <= i < |s| ==> s[i].0 != x.0
    ensures StrictlySorted(Insert(x, s))
  {
    if s == [] {
    } else if Less(s[0].0, x.0) {
      var rest := Insert(x, s[1..]);
      InsertSorted(x, s[1..]);
      InsertPermutes(x, s[1..]);
      forall j | 0 <= j < |rest|
        ensures Less(s[0].0, rest[j].0)
      {
        assert rest[j] in multiset(rest);
        if rest[j] != x {
          assert rest[j] in multiset(s[1..]);
          var k :| 0 <= k < |s[1..]| && s[1..][k] == rest[j];
          assert s[k + 1] == rest[j];
        }
      }
    } else {
      LessTotal(s[0].0, x.0);
      forall j | 0 <= j < |s|
        ensures Less(x.0, s[j].0)
      {
        if j > 0 {
          LessTransitive(x.0, s[0].0, s[j].0);
        }
      }
    }
  }

  /** Sorting pairs with distinct names yields a permutation whose names
      strictly increase. */
  lemma {:induction false} SortSorted(s: seq<Pair>)
    requires DistinctKeys(s)
    ensures StrictlySorted(Sort(s)) && multiset(Sort(s)) == multiset(s)
  {
    if s != [] {
      var rest := Sort(s[1..]);
      SortSorted(s[1..]);
      forall i | 0 <= i < |rest|
        ensures rest[i].0 != s[0].0
      {
        assert rest[i] in multiset(s[1..]);
        var k :| 0 <= k < |s[1..]| && s[1..][k] == rest[i];
        assert s[k + 1] == rest[i];
      }
      InsertSorted(s[0], rest);
    }
  }

  lemma HeadIn(t: seq<Pair>)
    ensures |t| > 0 ==> t[0] in t
  {
  }

  /** Two strictly sorted sequences with the same elements are equal. */
  lemma {:induction false} SortedUnique(s: seq<Pair>, t: seq<Pair>)
    requires StrictlySorted(s) && StrictlySorted(t)
    requires forall x :: x in s <==> x in t
    ensures s == t
  {
    if s == [] {
      if t != [] {
        HeadIn(t);
        assert false;
      }
    } else {
      assert s[0] in t && t != [];
      assert t[0] in s;
      var i :| 0 <= i < |s| && s[i] == t[0];
      var j :| 0 <= j < |t| && t[j] == s[0];
      if i > 0 && j > 0 {
        LessAsymmetric(s[0].0, t[0].0);
        assert false;
      }
      assert s[0] == t[0];
      forall x
        ensures x in s[1..] <==> x in t[1..]
      {
        if x in s[1..] {
          assert x in s && x != s[0] by {
            var k :| 0 <= k < |s[1..]| && s[1..][k] == x;
            assert Less(s[0].0, s[k + 1].0);
            LessIrreflexive(s[0].0);
          }
          assert t == [t[0]] + t[1..];
        }
        if x in t[1..] {
          assert x in t && x != t[0] by {
            var k :| 0 <= k < |t[1..]| && t[1..][k] == x;
            assert Less(t[0].0, t[k + 1].0);
            LessIrreflexive(t[0].0);
          }
          assert s == [s[0]] + s[1..];
        }
      }
      SortedUnique(s[1..], t[1..]);
      assert s == [s[0]] + s[1..] && t == [t[0]] + t[1..];
    }
  }

  // ---------------------------------------------------------------------
  // _hashable_params, the bind rebuild and `bind or None`

  /** `(k, dumps(v))` for every item `(k, v)`, in item order. */
  function Serialise(items: seq<(string, Value)>, dumps: Value -> string): seq<Pair>
  {
    seq(|items|, i requires 0 <= i < |items| => (items[i].0, dumps(items[i].1)))
  }

  /** `_hashable_params`: the empty tuple for an absent or empty map, else
      the serialised items in sorted order. */
  function HashableParams(params: Option<seq<(string, Value)>>, dumps: Value -> string): (r: seq<Pair>)
    ensures r == [] <==> params.None? || params.value == []
  {
    if params.None? || params.value == [] then []
    else
      var s := Serialise(params.value, dumps);
      assert s[0] in multiset(Sort(s));
      Sort(s)
  }

  ghost predicate Injective(dumps: Value -> string)
  {
    forall a, b :: dumps(a) == dumps(b) ==> a == b
  }

  /** The pairs of the cache key are exactly the serialised items. */
  lemma SerialisedMembers(items: seq<(string, Value)>, dumps: Value -> string, x: Pair)
    requires DistinctKeys(items)
    ensures x in HashableParams(Some(items), dumps) <==>
      x.0 in FromPairs(items) && x.1 == dumps(FromPairs(items)[x.0])
  {
    var s := Serialise(items, dumps);
    if items != [] {
      assert x in Sort(s) <==> x in multiset(s);
    }
    if x in s {
      var i :| 0 <= i < |s| && s[i] == x;
      DistinctPairsInDict(items, x.0, items[i].1);
    }
    if x.0 in FromPairs(items) && x.1 == dumps(FromPairs(items)[x.0]) {
      DistinctPairsInDict(items, x.0, FromPairs(items)[x.0]);
      var i :| 0 <= i < |items| && items[i] == (x.0, FromPairs(items)[x.0]);
      assert s[i] == x;
    }
  }

  /** The cache key has one pair per parameter, with strictly increasing
      names. */
  lemma HashableSorted(items: seq<(string, Value)>, dumps: Value -> string)
    requires DistinctKeys(items)
    ensures var r := HashableParams(Some(items), dumps);
      StrictlySorted(r) && |r| == |items|
  {
    if items != [] {
      var s := Serialise(items, dumps);
      assert DistinctKeys(s);
      SortSorted(s);
      assert |multiset(Sort(s))| == |multiset(s)|;
    }
  }

  /** Two parameter maps with the same pairs, in any insertion order, give
      the same cache key. */
  lemma HashableOrderIndependent(p: seq<(string, Value)>, q: seq<(string, Value)>, dumps: Value -> string)
    requires DistinctKeys(p) && DistinctKeys(q)
    requires FromPairs(p) == FromPairs(q)
    ensures HashableParams(Some(p), dumps) == HashableParams(Some(q), dumps)
  {
    HashableSorted(p, dumps);
    HashableSorted(q, dumps);
    forall x
      ensures x in HashableParams(Some(p), dumps) <==> x in HashableParams(Some(q), dumps)
    {
      SerialisedMembers(p, dumps, x);
      SerialisedMembers(q, dumps, x);
    }
    SortedUnique(HashableParams(Some(p), dumps), HashableParams(Some(q), dumps));
  }

  /** With an injective serialiser, different parameter maps give different
      cache keys. */
  lemma HashableInjective(p: seq<(string, Value)>, q: seq<(string, Value)>, dumps: Value -> string)
    requires Injective(dumps)
    requires DistinctKeys(p) && DistinctKeys(q)
    requires HashableParams(Some(p), dumps) == HashableParams(Some(q), dumps)
    ensures FromPairs(p) == FromPairs(q)
  {
    var mp, mq := FromPairs(p), FromPairs(q);
    forall k | k in mp
      ensures k in mq && mq[k] == mp[k]
    {
      SerialisedMembers(p, dumps, (k, dumps(mp[k])));
      SerialisedMembers(q, dumps, (k, dumps(mp[k])));
    }
    forall k | k in mq
      ensures k in mp
    {
      SerialisedMembers(q, dumps, (k, dumps(mq[k])));
      SerialisedMembers(p, dumps, (k, dumps(mq[k])));
    }
  }

  /** `(k, loads(d))` for every pair `(k, d)` of the cache key, in order. */
  function Deserialise(hashed: seq<Pair>, loads: string -> Value): seq<(string, Value)>
  {
    seq(|hashed|, i requires 0 <= i < |hashed| => (hashed[i].0, loads(hashed[i].1)))
  }

  /** `{k: loads(v) for k, v in hashed_params}`. */
  function Rebuild(hashed: seq<Pair>, loads: string -> Value): (r: map<string, Value>)
    ensures r.Keys == set i | 0 <= i < |hashed| :: hashed[i].0
  {
    var loaded := Deserialise(hashed, loads);
    FromPairsKeys(loaded);
    var loadedNames, hashedNames := set i | 0 <= i < |loaded| :: loaded[i].0, set i | 0 <= i < |hashed| :: hashed[i].0;
    forall k | k in hashedNames
      ensures k in loadedNames
    {
      var i :| 0 <= i < |hashed| && hashed[i].0 == k;
      assert loaded[i].0 == k;
    }
    assert loadedNames == hashedNames;
    FromPairs(loaded)
  }

  /** The rebuilt map holds the deserialised value of each pair of a
      canonical cache key, and nothing else. */
  lemma RebuildMembers(hashed: seq<Pair>, loads: string -> Value, k: string, v: Value)
    requires StrictlySorted(hashed)
    ensures (k in Rebuild(hashed, loads) && Rebuild(hashed, loads)[k] == v) <==>
      exists i :: 0 <= i < |hashed| && hashed[i].0 == k && loads(hashed[i].1) == v
  {
    var loaded := Deserialise(hashed, loads);
    assert DistinctKeys(loaded) by {
      forall i, j | 0 <= i < j < |loaded|
        ensures loaded[i].0 != loaded[j].0
      {
        LessIrreflexive(hashed[i].0);
      }
    }
    DistinctPairsInDict(loaded, k, v);
    if (k, v) in loaded {
      var i :| 0 <= i < |loaded| && loaded[i] == (k, v);
      assert hashed[i].0 == k && loads(hashed[i].1) == v;
    }
    if exists i :: 0 <= i < |hashed| && hashed[i].0 == k && loads(hashed[i].1) == v {
      var i :| 0 <= i < |hashed| && hashed[i].0 == k && loads(hashed[i].1) == v;
      assert loaded[i] == (k, v);
    }
  }

  /** Rebuilding the bind map from the cache key gives back the parameters
      whenever `loads` inverts `dumps` on their values. */
  lemma RoundTrip(items: seq<(string, Value)>, dumps: Value -> string, loads: string -> Value)
    requires DistinctKeys(items)
    requires forall i :: 0 <= i < |items| ==> loads(dumps(items[i].1)) == items[i].1
    ensures Rebuild(HashableParams(Some(items), dumps), loads) == FromPairs(items)
  {
    var h := HashableParams(Some(items), dumps);
    var m := FromPairs(items);
    var r := Rebuild(h, loads);
    HashableSorted(items, dumps);
    forall k | k in m
      ensures k in r && r[k] == m[k]
    {
      SerialisedMembers(items, dumps, (k, dumps(m[k])));
      DistinctPairsInDict(items, k, m[k]);
      var i :| 0 <= i < |h| && h[i] == (k, dumps(m[k]));
      RebuildMembers(h, loads, k, m[k]);
    }
    forall k | k in r
      ensures k in m
    {
      RebuildMembers(h, loads, k, r[k]);
      var i :| 0 <= i < |h| && h[i].0 == k && loads(h[i].1) == r[k];
      assert h[i] in h;
      SerialisedMembers(items, dumps, h[i]);
    }
  }

  /** `bind or None` on the rebuilt map: what `_run` hands to `execute`. */
  function RunBind(hashed: seq<Pair>, loads: string -> Value): (r: Option<map<string, Value>>)
    ensures r.None? <==> hashed == []
    ensures r.Some? ==> r.value == Rebuild(hashed, loads)
  {
    assert hashed != [] ==> hashed[0].0 in Rebuild(hashed, loads);
    NormaliseParams(Some(Rebuild(hashed, loads)))
  }

  /** End to end, the statement is dispatched with the caller's parameters,
      and with no parameters for an empty or absent map. */
  lemma RunBindMatchesParams(params: Option<seq<(string, Value)>>, dumps: Value -> string, loads: string -> Value)
    requires params.Some? ==> DistinctKeys(params.value)
    requires params.Some? ==> forall i :: 0 <= i < |params.value| ==> loads(dumps(params.value[i].1)) == params.value[i].1
    ensures var r := RunBind(HashableParams(params, dumps), loads);
      && (params.None? || params.value == [] ==> r == None)
      && (params.Some? ==> r == NormaliseParams(Some(FromPairs(params.value))))
  {
    if params.Some? && params.value != [] {
      RoundTrip(params.value, dumps, loads);
    } else {
      assert Rebuild([], loads) == map[];
    }
  }

  /** `_run` up to the fetch: rebuild the bind map and execute through the
      manager. */
  method Run(manager: ConnectionManager, sql: string, hashed: seq<Pair>, loads: string -> Value) returns (cur: Cursor)
    requires manager.config.Valid()
    modifies manager, manager.connector
    ensures manager.Obtained(cur.connection) && cur.connection == manager.connection
    ensures fresh(cur) && cur.executed == [(sql, RunBind(hashed, loads))]
  {
    var bind := Rebuild(hashed, loads);
    cur := manager.Execute(sql, NormaliseParams(Some(bind)));
  }
}
