/**
 * `Dictionary<string, V>` as the core uses it: keys compared ordinally,
 * `Add` refusing a key that is present, enumeration in insertion order.
 * A dictionary is the sequence of its entries in the order they were added.
 */
module Dictionaries {
  import opened Wrappers
  import opened Errors

  type Dict<V> = seq<(string, V)>

  /** The `Keys` collection, in enumeration order. */
  function Keys<V>(d: Dict<V>): (ks: seq<string>)
    ensures |ks| == |d|
    ensures forall i :: 0 <= i < |d| ==> ks[i] == d[i].0
  {
    seq(|d|, i requires 0 <= i < |d| => d[i].0)
  }

  /** The `Values` collection, in enumeration order. */
  function Values<V>(d: Dict<V>): (vs: seq<V>)
    ensures |vs| == |d|
    ensures forall i :: 0 <= i < |d| ==> vs[i] == d[i].1
  {
    seq(|d|, i requires 0 <= i < |d| => d[i].1)
  }

  /** No key occurs twice: what a dictionary built only by `Add` keeps. */
  predicate UniqueKeys<V>(d: Dict<V>) {
    forall i, j :: 0 <= i < j < |d| ==> d[i].0 != d[j].0
  }

  /** The indexer `d[k]` on a key that is present. */
  function Get<V>(d: Dict<V>, k: string): V
    requires k in Keys(d)
  {
    if d[0].0 == k then d[0].1
    else
      assert k in Keys(d[1..]) by {
        var i :| 0 <= i < |d| && d[i].0 == k;
        assert Keys(d[1..])[i - 1] == k;
      }
      Get(d[1..], k)
  }

  /** The indexer `d[k]`: the value, or `KeyNotFoundException` when `k` is absent. */
  function Lookup<V>(d: Dict<V>, k: string): (r: Result<V, Error>)
    ensures r.Failure? <==> k !in Keys(d)
    ensures r.Failure? ==> r.error == KeyNotFound(k)
    ensures r.Success? ==> r.value == Get(d, k)
  {
    if k in Keys(d) then Success(Get(d, k)) else Failure(KeyNotFound(k))
  }

  /** `d.Add(k, v)`: the dictionary with one more entry at the end, or `ArgumentException` when `k` is present. */
  function Add<V>(d: Dict<V>, k: string, v: V): (r: Result<Dict<V>, Error>)
    ensures r.Failure? <==> k in Keys(d)
    ensures r.Failure? ==> r.error == DuplicateKey(k)
    ensures r.Success? ==> r.value == d + [(k, v)]
    ensures r.Success? && UniqueKeys(d) ==> UniqueKeys(r.value)
  {
    if k in Keys(d) then Failure(DuplicateKey(k)) else Success(d + [(k, v)])
  }

  /** With unique keys, the indexer returns the value stored with that key. */
  lemma {:induction false} GetAt<V>(d: Dict<V>, i: nat)
    requires UniqueKeys(d)
    requires i < |d|
    ensures d[i].0 in Keys(d)
    ensures Get(d, d[i].0) == d[i].1
  {
    assert Keys(d)[i] == d[i].0;
    if i > 0 {
      assert UniqueKeys(d[1..]) by {
        forall a, b | 0 <= a < b < |d[1..]| ensures d[1..][a].0 != d[1..][b].0 {
          assert d[1..][a] == d[a + 1] && d[1..][b] == d[b + 1];
        }
      }
      GetAt(d[1..], i - 1);
    }
  }

  /** Whatever the keys, the indexer returns the value of some entry carrying that key. */
  lemma {:induction false} GetIsEntry<V>(d: Dict<V>, k: string) returns (i: nat)
    requires k in Keys(d)
    ensures i < |d| && d[i].0 == k && d[i].1 == Get(d, k)
  {
    if d[0].0 == k {
      i := 0;
    } else {
      var j :| 0 <= j < |d| && d[j].0 == k;
      assert Keys(d[1..])[j - 1] == k;
      var i' := GetIsEntry(d[1..], k);
      i := i' + 1;
    }
  }
}
