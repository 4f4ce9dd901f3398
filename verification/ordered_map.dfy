/**
 An insertion-ordered dictionary from strings to string lists, the shape of a Python
 `dict` whose values are lists: a new key goes at the end, an update keeps its place.
 */
module OrderedMaps {

  type Entry = (string, seq<string>)
  type OrderedMap = seq<Entry>

  function Keys(m: OrderedMap): (ks: seq<string>)
    ensures |ks| == |m|
    ensures forall i :: 0 <= i < |m| ==> ks[i] == m[i].0
  {
    seq(|m|, i requires 0 <= i < |m| => m[i].0)
  }

  predicate HasKey(m: OrderedMap, k: string)
  {
    exists i :: 0 <= i < |m| && m[i].0 == k
  }

  ghost predicate DistinctKeys(m: OrderedMap)
  {
    forall i, j :: 0 <= i < j < |m| ==> m[i].0 != m[j].0
  }

  /** The position of key `k`. */
  function IndexOf(m: OrderedMap, k: string): (i: nat)
    requires HasKey(m, k)
    ensures i < |m| && m[i].0 == k
    ensures forall j :: 0 <= j < i ==> m[j].0 != k
  {
    if m[0].0 == k then 0
    else
      assert HasKey(m[1..], k) by {
        var j :| 0 <= j < |m| && m[j].0 == k;
        assert m[1..][j - 1].0 == k;
      }
      1 + IndexOf(m[1..], k)
  }

  /** `d[k].extend(v)`: the list under key `k` gets `v` appended; nothing else changes. */
  function Extend(m: OrderedMap, k: string, v: seq<string>): (r: OrderedMap)
    requires DistinctKeys(m) && HasKey(m, k)
    ensures |r| == |m| && Keys(r) == Keys(m)
    ensures r[IndexOf(m, k)] == (k, m[IndexOf(m, k)].1 + v)
    ensures forall i :: 0 <= i < |m| && i != IndexOf(m, k) ==> r[i] == m[i]
  {
    var t := IndexOf(m, k);
    m[t := (k, m[t].1 + v)]
  }
}
