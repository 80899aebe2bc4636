/** Python values as this layer sees them, and the dictionary operations that
    the configuration loaders, the connection manager and the cache share. */
module Values {

  datatype Option<T> = None | Some(value: T)

  /** A Python value handed through the layer. `Null` is Python's `None`;
      every value the layer never inspects (numbers, nested objects) is an
      `Opaque` token naming that value, so that two tokens are equal exactly
      when the values they stand for are equal. */
  datatype Value = Null | Flag(b: bool) | Text(s: string) | Opaque(id: int)

  /** The dictionary that results from assigning the pairs of `ps` one after
      the other: later pairs overwrite earlier ones with the same key. */
  function FromPairs<V>(ps: seq<(string, V)>): map<string, V>
    decreases |ps|
  {
    if ps == [] then map[]
    else FromPairs(ps[..|ps| - 1])[ps[|ps| - 1].0 := ps[|ps| - 1].1]
  }

  /** A key is in the dictionary exactly when some pair carries it. */
  lemma {:induction false} FromPairsDomain<V>(ps: seq<(string, V)>, k: string)
    ensures k in FromPairs(ps) <==> exists i :: 0 <= i < |ps| && ps[i].0 == k
    decreases |ps|
  {
    if ps != [] {
      var init := ps[..|ps| - 1];
      FromPairsDomain(init, k);
      if k in FromPairs(init) {
        var i :| 0 <= i < |init| && init[i].0 == k;
        assert ps[i].0 == k;
      }
      if exists i :: 0 <= i < |ps| && ps[i].0 == k {
        var i :| 0 <= i < |ps| && ps[i].0 == k;
        if i < |ps| - 1 {
          assert init[i].0 == k;
        }
      }
    }
  }

  /** The keys of the dictionary are the keys the pairs carry. */
  lemma {:induction false} FromPairsKeys<V>(ps: seq<(string, V)>)
    ensures FromPairs(ps).Keys == set i | 0 <= i < |ps| :: ps[i].0
  {
    forall k
      ensures k in FromPairs(ps) <==> k in (set i | 0 <= i < |ps| :: ps[i].0)
    {
      FromPairsDomain(ps, k);
    }
  }

  /** The value under a key is the one of the last pair carrying that key. */
  lemma {:induction false} FromPairsLastWins<V>(ps: seq<(string, V)>, i: int)
    requires 0 <= i < |ps|
    requires forall j :: i < j < |ps| ==> ps[j].0 != ps[i].0
    ensures ps[i].0 in FromPairs(ps) && FromPairs(ps)[ps[i].0] == ps[i].1
    decreases |ps|
  {
    if i < |ps| - 1 {
      var init := ps[..|ps| - 1];
      FromPairsLastWins(init, i);
    }
  }

  /** The value under a present key comes from the last pair carrying it. */
  lemma {:induction false} FromPairsLookup<V>(ps: seq<(string, V)>, k: string)
    requires k in FromPairs(ps)
    ensures exists j :: (0 <= j < |ps| && ps[j].0 == k && FromPairs(ps)[k] == ps[j].1
      && forall j' :: j < j' < |ps| ==> ps[j'].0 != k)
    decreases |ps|
  {
    var n := |ps| - 1;
    if ps[n].0 == k {
      assert FromPairs(ps)[k] == ps[n].1;
    } else {
      var init := ps[..n];
      assert FromPairs(ps) == FromPairs(init)[ps[n].0 := ps[n].1];
      assert k in FromPairs(init) && FromPairs(ps)[k] == FromPairs(init)[k];
      FromPairsLookup(init, k);
      var j :| 0 <= j < |init| && init[j].0 == k && FromPairs(init)[k] == init[j].1
        && forall j' :: j < j' < |init| ==> init[j'].0 != k;
      assert ps[j] == init[j];
      forall j' | j < j' < |ps|
        ensures ps[j'].0 != k
      {
        if j' < n {
          assert ps[j'] == init[j'];
        }
      }
    }
  }

  /** The keys of `ps` are pairwise distinct, as the items of a Python dict are. */
  ghost predicate DistinctKeys<V>(ps: seq<(string, V)>)
  {
    forall i, j :: 0 <= i < j < |ps| ==> ps[i].0 != ps[j].0
  }

  /** With distinct keys, the dictionary holds each pair of `ps` and nothing else. */
  lemma DistinctPairsInDict<V>(ps: seq<(string, V)>, k: string, v: V)
    requires DistinctKeys(ps)
    ensures (k in FromPairs(ps) && FromPairs(ps)[k] == v) <==> (k, v) in ps
  {
    FromPairsDomain(ps, k);
    if k in FromPairs(ps) {
      var i :| 0 <= i < |ps| && ps[i].0 == k;
      FromPairsLastWins(ps, i);
    }
    if (k, v) in ps {
      var i :| 0 <= i < |ps| && ps[i] == (k, v);
      FromPairsLastWins(ps, i);
    }
  }

  function LowerChar(c: char): char
  {
    if 'A' <= c <= 'Z' then (c as int + 32) as char else c
  }

  /** `str.lower()` on ASCII letters; every other character is kept. */
  function Lower(s: string): (r: string)
    ensures |r| == |s|
    ensures forall i :: 0 <= i < |s| ==> r[i] == LowerChar(s[i])
  {
    if s == [] then [] else [LowerChar(s[0])] + Lower(s[1..])
  }

  /** Lowercasing leaves a string without ASCII capitals unchanged. */
  lemma LowerIdentity(s: string)
    requires forall i :: 0 <= i < |s| ==> !('A' <= s[i] <= 'Z')
    ensures Lower(s) == s
  {
  }

  predicate StartsWith(s: string, prefix: string)
  {
    |prefix| <= |s| && s[..|prefix|] == prefix
  }

  /** `params if params else None`: an absent or empty bind map is no bind map. */
  function NormaliseParams(params: Option<map<string, Value>>): (r: Option<map<string, Value>>)
    ensures r == None <==> (params == None || params == Some(map[]))
    ensures r != None ==> r == params
  {
    match params
    case None => None
    case Some(m) => if m == map[] then None else params
  }
}
