/**
 * Python dictionaries as the join uses them: entries kept in insertion
 * order, one entry per key, `d[k] = v` replacing a value where it stands.
 */
module OrderedDict {
  import opened Wrappers

  /** A dict as the sequence of its (key, value) entries, in iteration order. */
  type Dict<K, V> = seq<(K, V)>

  /** `list(d.keys())`. */
  function Keys<K, V>(d: Dict<K, V>): seq<K> {
    seq(|d|, i requires 0 <= i < |d| => d[i].0)
  }

  predicate DistinctKeys<K(==), V>(d: Dict<K, V>) {
    forall i, j :: 0 <= i < j < |d| ==> d[i].0 != d[j].0
  }

  /** `d.get(k)`: the value stored under `k`, if there is one. */
  function Get<K(==), V>(d: Dict<K, V>, k: K): (r: Option<V>)
    ensures r.None? <==> k !in Keys(d)
    ensures r.Some? ==> (k, r.value) in d
  {
    if k in Keys(d) then Some(d[FirstIndexOf(d, k)].1) else None
  }

  /** In a dict every entry is what a lookup of its key returns. */
  lemma GetEntry<K, V>(d: Dict<K, V>, i: nat)
    requires DistinctKeys(d) && i < |d|
    ensures Get(d, d[i].0) == Some(d[i].1)
  {
    FirstIndexOfUnique(d, d[i].0, i);
  }

  /** `d[k]`, for a key the caller knows is present. */
  function Lookup<K(==), V>(d: Dict<K, V>, k: K): (v: V)
    requires k in Keys(d)
    ensures (k, v) in d
  {
    Get(d, k).value
  }

  /**
   * `d[k] = v`: an existing key keeps its position and takes the new value;
   * a new key is appended. Every other key keeps its value.
   */
  function Assign<K(==, !new), V>(d: Dict<K, V>, k: K, v: V): (r: Dict<K, V>)
    ensures Keys(r) == if k in Keys(d) then Keys(d) else Keys(d) + [k]
    ensures Get(r, k) == Some(v)
    ensures forall k' :: k' != k ==> Get(r, k') == Get(d, k')
    ensures forall e :: e in r ==> e == (k, v) || e in d
  {
    var r := if k in Keys(d) then d[FirstIndexOf(d, k) := (k, v)] else d + [(k, v)];
    AssignFacts(d, k, v, r);
    r
  }

  /** `d[k] = v` keeps one entry per key. */
  lemma AssignDistinct<K(!new), V>(d: Dict<K, V>, k: K, v: V)
    requires DistinctKeys(d)
    ensures DistinctKeys(Assign(d, k, v))
  {
    var r := if k in Keys(d) then d[FirstIndexOf(d, k) := (k, v)] else d + [(k, v)];
    AssignFacts(d, k, v, r);
  }

  lemma AssignFacts<K, V>(d: Dict<K, V>, k: K, v: V, r: Dict<K, V>)
    requires r == if k in Keys(d) then d[FirstIndexOf(d, k) := (k, v)] else d + [(k, v)]
    ensures Keys(r) == if k in Keys(d) then Keys(d) else Keys(d) + [k]
    ensures Get(r, k) == Some(v)
    ensures forall k' :: k' != k ==> Get(r, k') == Get(d, k')
    ensures forall e :: e in r ==> e == (k, v) || e in d
    ensures DistinctKeys(d) ==> DistinctKeys(r)
  {
    if k in Keys(d) {
      AssignReplaces(d, k, v, r);
    } else {
      AssignAppends(d, k, v, r);
    }
  }

  /** `d[k] = v` for a key already present: the entry is replaced where it stands. */
  lemma AssignReplaces<K, V>(d: Dict<K, V>, k: K, v: V, r: Dict<K, V>)
    requires k in Keys(d) && r == d[FirstIndexOf(d, k) := (k, v)]
    ensures Keys(r) == Keys(d)
    ensures Get(r, k) == Some(v)
    ensures forall k' :: k' != k ==> Get(r, k') == Get(d, k')
    ensures forall e :: e in r ==> e == (k, v) || e in d
    ensures DistinctKeys(d) ==> DistinctKeys(r)
  {
    var i := FirstIndexOf(d, k);
    assert forall j :: 0 <= j < |r| ==> Keys(r)[j] == Keys(d)[j];
    FirstIndexOfUnique(r, k, i);
    forall k' | k' != k
      ensures Get(r, k') == Get(d, k')
    {
      if k' in Keys(d) {
        var i' := FirstIndexOf(d, k');
        FirstIndexOfUnique(r, k', i');
      }
    }
  }

  /** `d[k] = v` for a new key: the entry is appended. */
  lemma AssignAppends<K, V>(d: Dict<K, V>, k: K, v: V, r: Dict<K, V>)
    requires k !in Keys(d) && r == d + [(k, v)]
    ensures Keys(r) == Keys(d) + [k]
    ensures Get(r, k) == Some(v)
    ensures forall k' :: k' != k ==> Get(r, k') == Get(d, k')
    ensures forall e :: e in r ==> e == (k, v) || e in d
    ensures DistinctKeys(d) ==> DistinctKeys(r)
  {
    assert forall j :: 0 <= j < |r| ==> Keys(r)[j] == (Keys(d) + [k])[j];
    assert forall j :: 0 <= j < |d| ==> Keys(d)[j] == r[j].0;
    FirstIndexOfUnique(r, k, |d|);
    forall k' | k' != k
      ensures Get(r, k') == Get(d, k')
    {
      if k' in Keys(d) {
        FirstIndexOfPrefix(r, k');
        assert r[..|r| - 1] == d;
      }
    }
  }

  /** The dict built by `for k, v in ps: d[k] = v`, starting from `{}`. */
  function FromPairs<K(==, !new), V>(ps: seq<(K, V)>): (d: Dict<K, V>)
    ensures DistinctKeys(d)
    ensures forall k :: k in Keys(d) <==> k in Keys(ps)
  {
    if ps == [] then []
    else
      var last := ps[|ps| - 1];
      assert Keys(ps) == Keys(ps[..|ps| - 1]) + [last.0];
      AssignDistinct(FromPairs(ps[..|ps| - 1]), last.0, last.1);
      Assign(FromPairs(ps[..|ps| - 1]), last.0, last.1)
  }

  /** Index of the first pair whose key is `k`. */
  function FirstIndexOf<K(==), V>(ps: seq<(K, V)>, k: K): (i: nat)
    requires k in Keys(ps)
    ensures i < |ps| && ps[i].0 == k
    ensures forall j :: 0 <= j < i ==> ps[j].0 != k
  {
    var init := ps[..|ps| - 1];
    if k in Keys(init) then
      var i := FirstIndexOf(init, k);
      assert ps[i] == init[i];
      i
    else
      assert forall j :: 0 <= j < |init| ==> Keys(init)[j] == ps[j].0;
      |ps| - 1
  }

  /** Building from one more pair assigns that pair to the dictionary built so far. */
  lemma FromPairsSnoc<K(!new), V>(ps: seq<(K, V)>, qs: seq<(K, V)>, k: K, v: V)
    requires qs == ps + [(k, v)]
    ensures FromPairs(qs) == Assign(FromPairs(ps), k, v)
  {
    assert qs[..|qs| - 1] == ps;
  }

  /** The first pair with key `k` is the one at `i` when no earlier pair has that key. */
  lemma {:induction false} FirstIndexOfUnique<K, V>(ps: seq<(K, V)>, k: K, i: nat)
    requires i < |ps| && ps[i].0 == k
    requires forall j :: 0 <= j < i ==> ps[j].0 != k
    ensures k in Keys(ps) && FirstIndexOf(ps, k) == i
  {
    assert Keys(ps)[i] == k;
    var init := ps[..|ps| - 1];
    if i < |ps| - 1 {
      assert init[i] == ps[i];
      FirstIndexOfUnique(init, k, i);
    } else {
      assert forall j :: 0 <= j < |init| ==> Keys(init)[j] == ps[j].0;
    }
  }

  /** A later pair for the same key overrides the value of an earlier one. */
  lemma {:induction false} FromPairsLastWins<K(!new), V>(ps: seq<(K, V)>, i: nat)
    requires i < |ps|
    requires forall j :: i < j < |ps| ==> ps[j].0 != ps[i].0
    ensures Get(FromPairs(ps), ps[i].0) == Some(ps[i].1)
  {
    if i < |ps| - 1 {
      var init := ps[..|ps| - 1];
      assert init[i] == ps[i];
      FromPairsLastWins(init, i);
    }
  }

  /** The distinct elements of `xs`, each kept where it first occurs. */
  function Dedup<K(==, !new)>(xs: seq<K>): (r: seq<K>)
    ensures forall x :: x in r <==> x in xs
  {
    if xs == [] then []
    else
      var r := Dedup(xs[..|xs| - 1]);
      assert xs == xs[..|xs| - 1] + [xs[|xs| - 1]];
      if xs[|xs| - 1] in r then r else r + [xs[|xs| - 1]]
  }

  /**
   * The keys of the built dict stand in the order in which each key first
   * appears among the pairs: a repeated key keeps its first position.
   */
  lemma {:induction false} FromPairsKeyOrder<K(!new), V>(ps: seq<(K, V)>)
    ensures Keys(FromPairs(ps)) == Dedup(Keys(ps))
  {
    if ps != [] {
      var init := ps[..|ps| - 1];
      FromPairsKeyOrder(init);
      assert Keys(ps)[..|ps| - 1] == Keys(init);
    }
  }

  /** Appending a pair does not move the first occurrence of a key already present. */
  lemma FirstIndexOfPrefix<K, V>(ps: seq<(K, V)>, x: K)
    requires ps != [] && x in Keys(ps[..|ps| - 1])
    ensures x in Keys(ps) && FirstIndexOf(ps, x) == FirstIndexOf(ps[..|ps| - 1], x)
  {
    var init := ps[..|ps| - 1];
    var i := FirstIndexOf(init, x);
    assert ps[i] == init[i];
    assert Keys(ps)[i] == x;
  }
}
