/** A Python `dict` from strings to strings as the bot uses it: assignment
    `d[k] = v` overwrites in place, a new key goes to the end, and iteration
    follows insertion order. Represented as a list of pairs with distinct keys. */
module OrderedDict {
  import opened Wrappers

  type Dict = seq<(string, string)>

  function Keys(d: Dict): (ks: seq<string>)
    ensures |ks| == |d|
    ensures forall i :: 0 <= i < |d| ==> ks[i] == d[i].0
  {
    if d == [] then [] else [d[0].0] + Keys(d[1..])
  }

  predicate UniqueKeys(d: Dict) {
    forall i, j :: 0 <= i < j < |d| ==> d[i].0 != d[j].0
  }

  /** `d.get(k)`. */
  function Get(d: Dict, k: string): (r: Option<string>)
    ensures r.Some? <==> k in Keys(d)
  {
    if d == [] then None else if d[0].0 == k then Some(d[0].1) else Get(d[1..], k)
  }

  /** Position of key `k`, which is present. */
  function IndexOf(d: Dict, k: string): (i: nat)
    requires k in Keys(d)
    ensures i < |d| && d[i].0 == k
    ensures forall j :: 0 <= j < i ==> d[j].0 != k
  {
    if d[0].0 == k then 0 else 1 + IndexOf(d[1..], k)
  }

  /** `d[k] = v`: an existing key keeps its position and takes the new
      value, a new key is appended; every other pair stays as it was. */
  function Put(d: Dict, k: string, v: string): (r: Dict)
    requires UniqueKeys(d)
    ensures UniqueKeys(r)
    ensures Keys(r) == if k in Keys(d) then Keys(d) else Keys(d) + [k]
    ensures (k, v) in r
  {
    if k in Keys(d) then
      var i := IndexOf(d, k);
      var r := d[i := (k, v)];
      assert Keys(r) == Keys(d);
      r
    else
      var r := d + [(k, v)];
      assert Keys(r) == Keys(d) + [k];
      assert forall j :: 0 <= j < |d| ==> d[j].0 != k by {
        forall j | 0 <= j < |d| ensures d[j].0 != k {
          assert Keys(d)[j] == d[j].0;
        }
      }
      r
  }

  /** `d[k] = v` adds or changes only the pair for `k`. */
  lemma PutPairs(d: Dict, k: string, v: string)
    requires UniqueKeys(d)
    ensures forall p :: p in Put(d, k, v) ==> p == (k, v) || p in d
    ensures forall p :: p in d && p.0 != k ==> p in Put(d, k, v)
  {
    var r := Put(d, k, v);
    if k in Keys(d) {
      var i := IndexOf(d, k);
      assert r == d[i := (k, v)];
      forall p | p in d && p.0 != k ensures p in r {
        var j :| 0 <= j < |d| && d[j] == p;
        assert r[j] == p;
      }
    } else {
      assert r == d + [(k, v)];
    }
  }

  /** In a dict with distinct keys, the value stored at any position is
      what `get` returns for that position's key. */
  lemma {:induction false} GetAt(d: Dict, i: nat)
    requires UniqueKeys(d)
    requires i < |d|
    ensures Get(d, d[i].0) == Some(d[i].1)
  {
    if i > 0 {
      assert d[0].0 != d[i].0;
      assert d[1..][i - 1] == d[i];
      GetAt(d[1..], i - 1);
    }
  }

  /** After `d[k] = v`, `get(k)` is `v`. */
  lemma PutThenGet(d: Dict, k: string, v: string)
    requires UniqueKeys(d)
    ensures Get(Put(d, k, v), k) == Some(v)
  {
    var r := Put(d, k, v);
    var i :| 0 <= i < |r| && r[i] == (k, v);
    GetAt(r, i);
  }

  /** After `d[k] = v`, every other key reads as before. */
  lemma PutThenGetOther(d: Dict, k: string, v: string, other: string)
    requires UniqueKeys(d) && other != k
    ensures Get(Put(d, k, v), other) == Get(d, other)
  {
    var r := Put(d, k, v);
    PutPairs(d, k, v);
    if other in Keys(d) {
      var j := IndexOf(d, other);
      GetAt(d, j);
      assert d[j] in r;
      var j' :| 0 <= j' < |r| && r[j'] == d[j];
      GetAt(r, j');
    } else {
      assert other !in Keys(r);
    }
  }
}
