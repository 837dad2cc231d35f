/** Python's insertion-ordered `dict` as an association list: a sequence of
    key/value pairs whose keys are pairwise distinct. Assigning to an existing
    key replaces its value in place; assigning to a new key appends it. */
module Dict {
  import opened Seqs

  type Dict<K, V> = seq<(K, V)>

  /** The keys in insertion order (iterating over a Python dict). */
  function Keys<K, V>(d: Dict<K, V>): (ks: seq<K>)
    ensures |ks| == |d|
    ensures forall i :: 0 <= i < |d| ==> ks[i] == d[i].0
  {
    seq(|d|, i requires 0 <= i < |d| => d[i].0)
  }

  lemma KeysSnoc<K, V>(d: Dict<K, V>, e: (K, V))
    ensures Keys(d + [e]) == Keys(d) + [e.0]
  {
  }

  predicate WellFormed<K(==), V>(d: Dict<K, V>) {
    Distinct(Keys(d))
  }

  predicate HasKey<K(==), V>(d: Dict<K, V>, k: K) {
    k in Keys(d)
  }

  /** Position of key `k` (its first occurrence). */
  function IndexOf<K(==), V>(d: Dict<K, V>, k: K): (i: nat)
    requires HasKey(d, k)
    ensures i < |d| && d[i].0 == k
    ensures forall j :: 0 <= j < i ==> d[j].0 != k
  {
    if d[0].0 == k then 0 else 1 + IndexOf(d[1..], k)
  }

  /** `d[k]`. */
  function Get<K(==), V>(d: Dict<K, V>, k: K): V
    requires HasKey(d, k)
  {
    d[IndexOf(d, k)].1
  }

  /** `d[k] = v`. */
  function Set<K(==,!new), V>(d: Dict<K, V>, k: K, v: V): (r: Dict<K, V>)
    ensures HasKey(d, k) ==> Keys(r) == Keys(d)
    ensures !HasKey(d, k) ==> Keys(r) == Keys(d) + [k]
    ensures HasKey(r, k) && Get(r, k) == v
    ensures forall k' :: k' != k ==> (HasKey(r, k') <==> HasKey(d, k'))
    ensures forall k' :: k' != k && HasKey(d, k') ==> Get(r, k') == Get(d, k')
    ensures WellFormed(d) ==> WellFormed(r)
  {
    if HasKey(d, k) then
      var i := IndexOf(d, k);
      var r := d[i := (k, v)];
      assert Keys(r) == Keys(d);
      assert IndexOf(r, k) == i;
      forall k' | k' != k && HasKey(d, k')
        ensures Get(r, k') == Get(d, k')
      {
        IndexOfUpdate(d, i, (k, v), k');
      }
      r
    else
      var r := d + [(k, v)];
      assert Keys(r) == Keys(d) + [k];
      assert IndexOf(r, k) == |d|;
      forall k' | k' != k && HasKey(d, k')
        ensures Get(r, k') == Get(d, k')
      {
        IndexOfAppend(d, (k, v), k');
      }
      r
  }

  lemma IndexOfUpdate<K, V>(d: Dict<K, V>, i: nat, e: (K, V), k: K)
    requires i < |d| && d[i].0 == e.0 && e.0 != k && HasKey(d, k)
    ensures HasKey(d[i := e], k) && IndexOf(d[i := e], k) == IndexOf(d, k)
  {
    var r := d[i := e];
    assert Keys(r) == Keys(d)[i := e.0];
    var j := IndexOf(d, k);
    assert r[j].0 == k;
    assert HasKey(r, k);
    var j' := IndexOf(r, k);
    assert j' == j;
  }

  lemma IndexOfAppend<K, V>(d: Dict<K, V>, e: (K, V), k: K)
    requires HasKey(d, k)
    ensures HasKey(d + [e], k) && IndexOf(d + [e], k) == IndexOf(d, k)
  {
    var r := d + [e];
    var j := IndexOf(d, k);
    assert r[j].0 == k && Keys(r)[j] == k;
    var j' := IndexOf(r, k);
    assert j' == j;
  }

  /** In a well-formed dictionary the pair at position `i` is what `Get` returns for its key. */
  lemma GetAt<K, V>(d: Dict<K, V>, i: nat)
    requires WellFormed(d) && i < |d|
    ensures HasKey(d, d[i].0) && IndexOf(d, d[i].0) == i && Get(d, d[i].0) == d[i].1
  {
    assert Keys(d)[i] == d[i].0;
  }

  /** Dictionaries with the same keys in the same order find a key at the same position. */
  lemma {:induction false} IndexOfSameKeys<K, V, W>(a: Dict<K, V>, b: Dict<K, W>, k: K)
    requires Keys(a) == Keys(b) && HasKey(a, k)
    ensures HasKey(b, k) && IndexOf(a, k) == IndexOf(b, k)
  {
    assert b[0].0 == Keys(b)[0] == Keys(a)[0] == a[0].0;
    if a[0].0 != k {
      assert Keys(a[1..]) == Keys(a)[1..];
      assert Keys(b[1..]) == Keys(b)[1..];
      assert k in Keys(a)[1..];
      IndexOfSameKeys(a[1..], b[1..], k);
    }
  }
}
