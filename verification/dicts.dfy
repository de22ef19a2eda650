/**
 An insertion-ordered dictionary with the behaviour of a Python `dict`:
 looking a key up finds its entry, assigning to a key that is present
 replaces its value in place, assigning to a new key appends it at the end,
 and deleting a key closes the gap. Iteration follows the order of the
 entries. A dictionary whose keys are pairwise distinct is `Valid`; every
 dictionary the program builds is.
 */
module Dicts {

  type Dict<K, V> = seq<(K, V)>

  /** The keys in iteration order (Python's `d.keys()`). */
  function Keys<K, V>(d: Dict<K, V>): (ks: seq<K>)
    ensures |ks| == |d|
    ensures forall i :: 0 <= i < |d| ==> ks[i] == d[i].0
  {
    seq(|d|, i requires 0 <= i < |d| => d[i].0)
  }

  /** Python's `k in d`. */
  predicate HasKey<K(==), V>(d: Dict<K, V>, k: K) {
    k in Keys(d)
  }

  /** No key occurs twice. */
  predicate Valid<K(==), V>(d: Dict<K, V>) {
    forall i, j :: 0 <= i < j < |d| ==> d[i].0 != d[j].0
  }

  /** The position of the first entry whose key is `k`. */
  function IndexOf<K(==), V>(d: Dict<K, V>, k: K): (i: nat)
    requires HasKey(d, k)
    ensures i < |d| && d[i].0 == k
    ensures forall j :: 0 <= j < i ==> d[j].0 != k
  {
    if d[0].0 == k then 0 else 1 + IndexOf(d[1..], k)
  }

  /** Python's `d[k]`. */
  function Get<K(==), V>(d: Dict<K, V>, k: K): V
    requires HasKey(d, k)
  {
    d[IndexOf(d, k)].1
  }

  /** `a` and `b` have the same keys, with the same values, apart from `k`. */
  ghost predicate AgreeExcept<K(!new), V>(a: Dict<K, V>, b: Dict<K, V>, k: K) {
    forall k' :: k' != k ==>
      && (HasKey(a, k') <==> HasKey(b, k'))
      && (HasKey(a, k') ==> Get(a, k') == Get(b, k'))
  }

  /** An entry with key `k` at position `i`, preceded by none, is the one `IndexOf` finds. */
  lemma IndexOfIsFirst<K(!new), V>(d: Dict<K, V>, k: K, i: nat)
    requires i < |d| && d[i].0 == k
    requires forall j :: 0 <= j < i ==> d[j].0 != k
    ensures HasKey(d, k) && IndexOf(d, k) == i
  {
    assert Keys(d)[i] == k;
  }

  /** In a valid dictionary every entry is the one found by looking up its key. */
  lemma GetEntry<K(!new), V>(d: Dict<K, V>, i: nat)
    requires Valid(d) && i < |d|
    ensures HasKey(d, d[i].0) && IndexOf(d, d[i].0) == i && Get(d, d[i].0) == d[i].1
  {
    IndexOfIsFirst(d, d[i].0, i);
  }

  /** Two dictionaries with the same keys in the same order are valid together. */
  lemma SameKeysSameValidity<K(!new), V, W>(a: Dict<K, V>, b: Dict<K, W>)
    requires Keys(a) == Keys(b)
    ensures Valid(a) <==> Valid(b)
  {
    assert forall i :: 0 <= i < |a| ==> a[i].0 == Keys(a)[i] == b[i].0;
  }

  /** Python's `d[k] = v`. */
  function Put<K(==, !new), V>(d: Dict<K, V>, k: K, v: V): (r: Dict<K, V>)
    ensures HasKey(d, k) ==> Keys(r) == Keys(d)
    ensures !HasKey(d, k) ==> Keys(r) == Keys(d) + [k]
    ensures HasKey(r, k) && Get(r, k) == v
    ensures AgreeExcept(d, r, k)
    ensures Valid(d) ==> Valid(r)
  {
    if HasKey(d, k) then
      var i := IndexOf(d, k);
      ReplaceAt(d, i, v);
      d[i := (k, v)]
    else
      Append(d, k, v);
      d + [(k, v)]
  }

  lemma ReplaceAt<K(!new), V>(d: Dict<K, V>, i: nat, v: V)
    requires i < |d| && HasKey(d, d[i].0) && IndexOf(d, d[i].0) == i
    ensures var r := d[i := (d[i].0, v)];
      && Keys(r) == Keys(d)
      && HasKey(r, d[i].0) && Get(r, d[i].0) == v
      && AgreeExcept(d, r, d[i].0)
      && (Valid(d) ==> Valid(r))
  {
    var k := d[i].0;
    var r := d[i := (k, v)];
    assert Keys(r) == Keys(d);
    IndexOfIsFirst(r, k, i);
    forall k' | k' != k && HasKey(d, k')
      ensures HasKey(r, k') && Get(r, k') == Get(d, k')
    {
      IndexOfIsFirst(r, k', IndexOf(d, k'));
    }
  }

  lemma Append<K(!new), V>(d: Dict<K, V>, k: K, v: V)
    requires !HasKey(d, k)
    ensures var r := d + [(k, v)];
      && Keys(r) == Keys(d) + [k]
      && HasKey(r, k) && Get(r, k) == v
      && AgreeExcept(d, r, k)
      && (Valid(d) ==> Valid(r))
  {
    var r := d + [(k, v)];
    assert Keys(r) == Keys(d) + [k];
    IndexOfIsFirst(r, k, |d|);
    forall k' | k' != k && HasKey(d, k')
      ensures HasKey(r, k') && Get(r, k') == Get(d, k')
    {
      IndexOfIsFirst(r, k', IndexOf(d, k'));
    }
    if Valid(d) {
      forall i | 0 <= i < |d|
        ensures d[i].0 != k
      {
        assert Keys(d)[i] == d[i].0;
      }
    }
  }

  /** Python's `del d[k]`; like Python, it demands that `k` is present. */
  function Delete<K(==, !new), V>(d: Dict<K, V>, k: K): (r: Dict<K, V>)
    requires HasKey(d, k)
    ensures |r| == |d| - 1
    ensures Keys(r) == Keys(d)[..IndexOf(d, k)] + Keys(d)[IndexOf(d, k) + 1..]
    ensures AgreeExcept(d, r, k)
    ensures Valid(d) ==> Valid(r) && !HasKey(r, k)
  {
    var i := IndexOf(d, k);
    RemoveAt(d, i);
    d[..i] + d[i + 1..]
  }

  lemma RemoveAt<K(!new), V>(d: Dict<K, V>, i: nat)
    requires i < |d| && HasKey(d, d[i].0) && IndexOf(d, d[i].0) == i
    ensures var r := d[..i] + d[i + 1..];
      && Keys(r) == Keys(d)[..i] + Keys(d)[i + 1..]
      && AgreeExcept(d, r, d[i].0)
      && (Valid(d) ==> Valid(r) && !HasKey(r, d[i].0))
  {
    var k := d[i].0;
    var r := d[..i] + d[i + 1..];
    RemoveAtKeys(d, i);
    forall k' | k' != k
      ensures HasKey(d, k') <==> HasKey(r, k')
      ensures HasKey(d, k') ==> Get(d, k') == Get(r, k')
    {
      if HasKey(d, k') {
        RemoveAtKeeps(d, i, k');
      }
      if HasKey(r, k') {
        RemoveAtAddsNothing(d, i, k');
      }
    }
    if Valid(d) {
      RemoveAtValid(d, i);
    }
  }

  lemma RemoveAtKeys<K, V>(d: Dict<K, V>, i: nat)
    requires i < |d|
    ensures Keys(d[..i] + d[i + 1..]) == Keys(d)[..i] + Keys(d)[i + 1..]
  {
    var r := d[..i] + d[i + 1..];
    var ks := Keys(d)[..i] + Keys(d)[i + 1..];
    assert |Keys(r)| == |ks|;
    forall m | 0 <= m < |ks|
      ensures Keys(r)[m] == ks[m]
    {
      if m < i {
        assert r[m] == d[m];
      } else {
        assert r[m] == d[m + 1];
      }
    }
  }

  lemma RemoveAtValid<K(!new), V>(d: Dict<K, V>, i: nat)
    requires i < |d| && Valid(d)
    ensures Valid(d[..i] + d[i + 1..]) && !HasKey(d[..i] + d[i + 1..], d[i].0)
  {
    var r := d[..i] + d[i + 1..];
    assert forall m :: 0 <= m < i ==> r[m] == d[m];
    assert forall m :: i <= m < |r| ==> r[m] == d[m + 1];
    if HasKey(r, d[i].0) {
      RemoveAtAddsNothing(d, i, d[i].0);
    }
  }

  lemma RemoveAtKeeps<K(!new), V>(d: Dict<K, V>, i: nat, k': K)
    requires i < |d| && HasKey(d, d[i].0) && IndexOf(d, d[i].0) == i
    requires k' != d[i].0 && HasKey(d, k')
    ensures HasKey(d[..i] + d[i + 1..], k') && Get(d[..i] + d[i + 1..], k') == Get(d, k')
  {
    var j := IndexOf(d, k');
    if j < i {
      RemoveBefore(d, i, k', j);
    } else {
      RemoveAfter(d, i, k', j);
    }
  }

  lemma RemoveBefore<K(!new), V>(d: Dict<K, V>, i: nat, k': K, j: nat)
    requires j < i < |d| && d[j].0 == k'
    requires forall m :: 0 <= m < j ==> d[m].0 != k'
    ensures HasKey(d[..i] + d[i + 1..], k') && IndexOf(d[..i] + d[i + 1..], k') == j
    ensures (d[..i] + d[i + 1..])[j] == d[j]
  {
    var r := d[..i] + d[i + 1..];
    assert forall m :: 0 <= m < i ==> r[m] == d[m];
    IndexOfIsFirst(r, k', j);
  }

  lemma RemoveAfter<K(!new), V>(d: Dict<K, V>, i: nat, k': K, j: nat)
    requires i < j < |d| && d[j].0 == k' && d[i].0 != k'
    requires forall m :: 0 <= m < j ==> d[m].0 != k'
    ensures HasKey(d[..i] + d[i + 1..], k') && IndexOf(d[..i] + d[i + 1..], k') == j - 1
    ensures (d[..i] + d[i + 1..])[j - 1] == d[j]
  {
    var r := d[..i] + d[i + 1..];
    assert forall m :: 0 <= m < i ==> r[m] == d[m];
    assert forall m :: i <= m < |r| ==> r[m] == d[m + 1];
    IndexOfIsFirst(r, k', j - 1);
  }

  lemma RemoveAtAddsNothing<K(!new), V>(d: Dict<K, V>, i: nat, k': K)
    requires i < |d|
    requires HasKey(d[..i] + d[i + 1..], k')
    ensures exists j :: 0 <= j < |d| && j != i && d[j].0 == k'
    ensures k' != d[i].0 ==> HasKey(d, k')
  {
    var r := d[..i] + d[i + 1..];
    var j := IndexOf(r, k');
    if j < i {
      assert d[j] == r[j];
      assert Keys(d)[j] == k';
    } else {
      assert d[j + 1] == r[j];
      assert Keys(d)[j + 1] == k';
    }
  }

  /** Assigning a new key and deleting it again gives back the dictionary. */
  lemma PutNewThenDelete<K(!new), V>(d: Dict<K, V>, k: K, v: V)
    requires !HasKey(d, k)
    ensures Delete(Put(d, k, v), k) == d
  {
    var r := Put(d, k, v);
    assert r == d + [(k, v)];
    IndexOfIsFirst(r, k, |d|);
    assert r[..|d|] == d;
  }

  /**
   How lookups in a non-empty valid dictionary decompose into its first
   entry and the rest; the folds over a dictionary rest on this.
   */
  lemma Uncons<K(!new), V>(d: Dict<K, V>)
    requires Valid(d) && |d| > 0
    ensures Valid(d[1..])
    ensures HasKey(d, d[0].0) && IndexOf(d, d[0].0) == 0 && Get(d, d[0].0) == d[0].1
    ensures !HasKey(d[1..], d[0].0)
    ensures forall k :: HasKey(d, k) <==> k == d[0].0 || HasKey(d[1..], k)
    ensures forall k :: HasKey(d[1..], k) ==>
      HasKey(d, k) && Get(d, k) == Get(d[1..], k) && IndexOf(d, k) == 1 + IndexOf(d[1..], k)
  {
    GetEntry(d, 0);
    assert Keys(d) == [d[0].0] + Keys(d[1..]);
    forall k | HasKey(d[1..], k)
      ensures HasKey(d, k) && Get(d, k) == Get(d[1..], k) && IndexOf(d, k) == 1 + IndexOf(d[1..], k)
    {
      IndexOfIsFirst(d, k, 1 + IndexOf(d[1..], k));
    }
  }

  /** Lookups in the concatenation of two valid dictionaries with disjoint keys. */
  lemma Concat<K(!new), V>(a: Dict<K, V>, b: Dict<K, V>)
    requires Valid(a) && Valid(b)
    requires forall k :: HasKey(a, k) ==> !HasKey(b, k)
    ensures Keys(a + b) == Keys(a) + Keys(b)
    ensures Valid(a + b)
    ensures forall k :: HasKey(a + b, k) <==> HasKey(a, k) || HasKey(b, k)
    ensures forall k :: HasKey(a, k) ==> Get(a + b, k) == Get(a, k)
    ensures forall k :: HasKey(b, k) ==> Get(a + b, k) == Get(b, k)
  {
    var c := a + b;
    assert Keys(c) == Keys(a) + Keys(b);
    forall i, j | 0 <= i < j < |c|
      ensures c[i].0 != c[j].0
    {
      if j < |a| {
      } else if i >= |a| {
        assert c[i] == b[i - |a|] && c[j] == b[j - |a|];
      } else {
        assert Keys(a)[i] == c[i].0;
        assert Keys(b)[j - |a|] == c[j].0;
        assert HasKey(a, c[i].0) && HasKey(b, c[j].0);
      }
    }
    forall k | HasKey(a, k)
      ensures Get(c, k) == Get(a, k)
    {
      GetEntry(a, IndexOf(a, k));
      GetEntry(c, IndexOf(a, k));
    }
    forall k | HasKey(b, k)
      ensures Get(c, k) == Get(b, k)
    {
      GetEntry(b, IndexOf(b, k));
      assert c[|a| + IndexOf(b, k)] == b[IndexOf(b, k)];
      GetEntry(c, |a| + IndexOf(b, k));
    }
  }
}
