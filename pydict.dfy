/** Python's `dict` with string keys, as the INI settings manager uses it: a
    sequence of `(key, value)` pairs in insertion order. Assigning to a key
    that is already present replaces its value where it stands; a new key is
    added at the end. */
module PyDict {
  import opened Wrappers

  type Dict<V> = seq<(string, V)>

  /** The keys in iteration order. */
  function Keys<V>(d: Dict<V>): (ks: seq<string>)
    ensures |ks| == |d|
    ensures forall i :: 0 <= i < |d| ==> ks[i] == d[i].0
  {
    seq(|d|, i requires 0 <= i < |d| => d[i].0)
  }

  /** `k in d`. */
  predicate HasKey<V>(d: Dict<V>, k: string) {
    exists i :: 0 <= i < |d| && d[i].0 == k
  }

  /** No key occurs twice, as in every dict Python builds. */
  predicate DistinctKeys<V>(d: Dict<V>) {
    forall i, j :: 0 <= i < j < |d| ==> d[i].0 != d[j].0
  }

  /** The position of `k`, if it is present: its first occurrence. */
  function Find<V>(d: Dict<V>, k: string): (r: Option<nat>)
    ensures r.None? ==> forall j :: 0 <= j < |d| ==> d[j].0 != k
    ensures r.Some? ==> r.value < |d| && d[r.value].0 == k && forall j :: 0 <= j < r.value ==> d[j].0 != k
  {
    if d == [] then None
    else if d[0].0 == k then Some(0)
    else
      match Find(d[1..], k)
      case None => None
      case Some(i) => Some(i + 1)
  }

  /** `d.get(k)`: the value stored under `k`, or `None`. */
  function Get<V>(d: Dict<V>, k: string): Option<V> {
    match Find(d, k)
    case None => None
    case Some(i) => Some(d[i].1)
  }

  /** `d[k] = v`. */
  function Put<V>(d: Dict<V>, k: string, v: V): Dict<V> {
    match Find(d, k)
    case None => d + [(k, v)]
    case Some(i) => d[i := (k, v)]
  }

  lemma FindHasKey<V>(d: Dict<V>, k: string)
    ensures Find(d, k).Some? <==> HasKey(d, k)
  {
    if HasKey(d, k) {
      var i :| 0 <= i < |d| && d[i].0 == k;
      assert d[i].0 == k;
    }
  }

  /** In a dict every stored pair is what `get` finds under its key. */
  lemma GetStored<V>(d: Dict<V>, i: int)
    requires DistinctKeys(d) && 0 <= i < |d|
    ensures Get(d, d[i].0) == Some(d[i].1)
  {
    var r := Find(d, d[i].0);
    assert r.Some?;
    assert !(r.value < i);
    assert !(i < r.value);
  }

  /** `Find` is determined by the first occurrence of the key. */
  lemma FindFirst<V>(d: Dict<V>, k: string, i: int)
    requires 0 <= i < |d| && d[i].0 == k && forall j :: 0 <= j < i ==> d[j].0 != k
    ensures Find(d, k) == Some(i)
  {
    var r := Find(d, k);
    assert r.Some? by { assert d[i].0 == k; }
    assert !(r.value < i);
    assert !(i < r.value);
  }

  /** After `d[k] = v`, `k` holds `v` and every other key keeps its value. */
  lemma PutGet<V>(d: Dict<V>, k: string, v: V, k': string)
    ensures Get(Put(d, k, v), k') == if k' == k then Some(v) else Get(d, k')
  {
    var d' := Put(d, k, v);
    match Find(d, k)
    case None =>
      assert d' == d + [(k, v)];
      if k' == k {
        FindFirst(d', k', |d|);
      } else {
        match Find(d, k')
        case None =>
          assert forall j :: 0 <= j < |d'| ==> d'[j].0 != k' by {
            forall j | 0 <= j < |d'| ensures d'[j].0 != k' {
              if j < |d| { assert d'[j] == d[j]; }
            }
          }
        case Some(j) =>
          FindFirst(d', k', j);
      }
    case Some(i) =>
      assert d' == d[i := (k, v)];
      if k' == k {
        FindFirst(d', k', i);
      } else {
        match Find(d, k')
        case None =>
          assert forall j :: 0 <= j < |d'| ==> d'[j].0 != k' by {
            forall j | 0 <= j < |d'| ensures d'[j].0 != k' {
              if j != i { assert d'[j] == d[j]; }
            }
          }
        case Some(j) =>
          FindFirst(d', k', j);
      }
  }

  /** Re-assigning a key keeps the key order; a new key goes at the end. */
  lemma PutKeys<V>(d: Dict<V>, k: string, v: V)
    ensures Keys(Put(d, k, v)) == if HasKey(d, k) then Keys(d) else Keys(d) + [k]
  {
    FindHasKey(d, k);
    match Find(d, k)
    case None =>
      assert Keys(Put(d, k, v)) == Keys(d) + [k];
    case Some(i) =>
      assert Keys(Put(d, k, v)) == Keys(d);
  }

  lemma PutDistinct<V>(d: Dict<V>, k: string, v: V)
    requires DistinctKeys(d)
    ensures DistinctKeys(Put(d, k, v))
    ensures HasKey(Put(d, k, v), k)
  {
    PutKeys(d, k, v);
    FindHasKey(d, k);
    var d' := Put(d, k, v);
    assert forall i :: 0 <= i < |d'| ==> d'[i].0 == Keys(d')[i];
    match Find(d, k)
    case None =>
      assert d'[|d|].0 == k;
    case Some(i) =>
      assert d'[i].0 == k;
  }

  /** Assigning a key that is not yet present appends the pair. */
  lemma PutNew<V>(d: Dict<V>, k: string, v: V)
    requires !HasKey(d, k)
    ensures Put(d, k, v) == d + [(k, v)]
  {
    FindHasKey(d, k);
  }

  lemma HasKeyInKeys<V>(d: Dict<V>, k: string)
    ensures HasKey(d, k) <==> k in Keys(d)
  {
    if k in Keys(d) {
      var i :| 0 <= i < |d| && Keys(d)[i] == k;
      assert d[i].0 == k;
    }
  }

  /** Two dicts with the same keys in the same order agree on where a key is. */
  lemma FindSameKeys<V, W>(d: Dict<V>, e: Dict<W>, k: string)
    requires Keys(d) == Keys(e)
    ensures Find(d, k) == Find(e, k)
    ensures HasKey(d, k) <==> HasKey(e, k)
  {
    HasKeyInKeys(d, k);
    HasKeyInKeys(e, k);
    match Find(d, k)
    case None =>
      assert forall j :: 0 <= j < |e| ==> e[j].0 == Keys(d)[j];
    case Some(i) =>
      assert forall j :: 0 <= j < |e| ==> e[j].0 == Keys(d)[j];
      FindFirst(e, k, i);
  }

  /** A property every stored pair has, and the new pair has, survives `d[k] = v`. */
  lemma PutAll<V>(d: Dict<V>, k: string, v: V, ok: ((string, V)) -> bool)
    requires forall j :: 0 <= j < |d| ==> ok(d[j])
    requires ok((k, v))
    ensures forall j :: 0 <= j < |Put(d, k, v)| ==> ok(Put(d, k, v)[j])
  {
    match Find(d, k)
    case None =>
      forall j | 0 <= j < |d| + 1 ensures ok((d + [(k, v)])[j]) {
        if j < |d| { assert (d + [(k, v)])[j] == d[j]; }
      }
    case Some(i) =>
      var e := d[i := (k, v)];
      forall j | 0 <= j < |e| ensures ok(e[j]) {
        if j != i { assert e[j] == d[j]; }
      }
  }

  /** Appending a pair under a new key. */
  lemma GetSnoc<V>(d: Dict<V>, k: string, v: V, key: string)
    requires !HasKey(d, k)
    ensures Get(d + [(k, v)], key) == if key == k then Some(v) else Get(d, key)
    ensures HasKey(d + [(k, v)], key) <==> key == k || HasKey(d, key)
  {
    PutNew(d, k, v);
    PutGet(d, k, v, key);
    var e := d + [(k, v)];
    assert e[|d|].0 == k;
    if HasKey(d, key) {
      var j :| 0 <= j < |d| && d[j].0 == key;
      assert e[j].0 == key;
    }
    if HasKey(e, key) && key != k {
      var j :| 0 <= j < |e| && e[j].0 == key;
      assert j < |d| && d[j].0 == key;
    }
  }
}
