/** A Python `dict`: entries in insertion order with distinct keys. Assigning to an
    existing key replaces its value where it stands; a new key goes last. */
module PyDict {
  import opened Wrappers

  type Dict<K, V> = seq<(K, V)>

  /** No key occurs twice. */
  predicate Valid<K(==), V>(d: Dict<K, V>) {
    forall i, j :: 0 <= i < j < |d| ==> d[i].0 != d[j].0
  }

  /** `list(d)`: the keys in iteration order. */
  function Keys<K, V>(d: Dict<K, V>): (ks: seq<K>)
    ensures |ks| == |d| && forall i :: 0 <= i < |d| ==> ks[i] == d[i].0
  {
    seq(|d|, i requires 0 <= i < |d| => d[i].0)
  }

  /** The position of the first entry with key `k`. */
  function Find<K(==), V>(d: Dict<K, V>, k: K): (r: Option<nat>)
    ensures r.Some? ==> r.value < |d| && d[r.value].0 == k
    ensures r.Some? ==> forall j :: 0 <= j < r.value ==> d[j].0 != k
    ensures r.None? <==> forall j :: 0 <= j < |d| ==> d[j].0 != k
  {
    if d == [] then None
    else if d[0].0 == k then Some(0)
    else match Find(d[1..], k)
      case None => None
      case Some(i) => Some(i + 1)
  }

  /** `d[k]` for a present key; None when no entry has key `k` */
  function Get<K(==), V>(d: Dict<K, V>, k: K): (r: Option<V>)
    ensures r.None? <==> forall j :: 0 <= j < |d| ==> d[j].0 != k
    ensures Valid(d) ==> forall j :: 0 <= j < |d| && d[j].0 == k ==> r == Some(d[j].1)
  {
    match Find(d, k)
    case None => None
    case Some(i) => Some(d[i].1)
  }

  /** Two dicts with the same keys at the same positions find every key at the same place. */
  lemma FindSameKeys<K, V, W>(d: Dict<K, V>, e: Dict<K, W>, k: K)
    requires |d| == |e| && forall j :: 0 <= j < |d| ==> d[j].0 == e[j].0
    ensures Find(d, k) == Find(e, k)
  {
    if d != [] && d[0].0 != k {
      FindSameKeys(d[1..], e[1..], k);
    }
  }

  /** Appending an entry leaves the positions of earlier keys unchanged. */
  lemma FindAppend<K, V>(d: Dict<K, V>, k: K, v: V, k': K)
    ensures Find(d + [(k, v)], k') ==
      if Find(d, k').Some? then Find(d, k') else if k' == k then Some(|d|) else None
  {
    if d != [] && d[0].0 != k' {
      assert (d + [(k, v)])[1..] == d[1..] + [(k, v)];
      FindAppend(d[1..], k, v, k');
    }
  }

  /** Looking a key up after appending an entry: earlier entries win. */
  lemma GetAppend<K, V>(d: Dict<K, V>, k: K, v: V, k': K)
    ensures Get(d + [(k, v)], k') ==
      if Get(d, k').Some? then Get(d, k') else if k' == k then Some(v) else None
  {
    FindAppend(d, k, v, k');
    if Find(d, k').Some? {
      assert (d + [(k, v)])[Find(d, k').value] == d[Find(d, k').value];
    }
  }

  /** `d[k] = v`: an existing key is given the new value where it stands; a new key
      is appended. */
  function Put<K(==), V>(d: Dict<K, V>, k: K, v: V): (r: Dict<K, V>)
    ensures Find(d, k).None? ==> r == d + [(k, v)]
    ensures Find(d, k).Some? ==> r == d[Find(d, k).value := (k, v)]
  {
    match Find(d, k)
    case None => d + [(k, v)]
    case Some(i) => d[i := (k, v)]
  }

  /** After `d[k] = v`, `k` holds `v`, every other key holds what it held, the keys
      stay distinct, existing keys keep their positions, and the dict grows by one
      entry exactly when `k` was new. */
  lemma PutSpec<K(!new), V>(d: Dict<K, V>, k: K, v: V)
    ensures Valid(d) ==> Valid(Put(d, k, v))
    ensures Get(Put(d, k, v), k) == Some(v)
    ensures forall k' :: k' != k ==> Get(Put(d, k, v), k') == Get(d, k')
    ensures |Put(d, k, v)| == if Get(d, k).None? then |d| + 1 else |d|
    ensures forall j :: 0 <= j < |d| ==> Put(d, k, v)[j].0 == d[j].0
  {
    var r := Put(d, k, v);
    match Find(d, k)
    case None =>
      forall k' ensures Find(r, k') == if Find(d, k').Some? then Find(d, k') else if k' == k then Some(|d|) else None {
        FindAppend(d, k, v, k');
      }
    case Some(i) =>
      forall k' ensures Find(r, k') == Find(d, k') {
        FindSameKeys(r, d, k');
      }
  }

  /** Assigning again to the key just appended replaces that last entry. */
  lemma PutLast<K(!new), V>(d: Dict<K, V>, k: K, v: V, w: V)
    requires Find(d, k).None?
    ensures Put(d + [(k, v)], k, w) == d + [(k, w)]
  {
    FindAppend(d, k, v, k);
  }

  /** In a valid dict, the entry at position `j` is what `Get` returns for its key. */
  lemma GetAt<K, V>(d: Dict<K, V>, j: nat)
    requires Valid(d) && j < |d|
    ensures Get(d, d[j].0) == Some(d[j].1)
  {
  }

  /** `{k: v for k, v in d.items() if ...}`: the entries whose flag is set, in order. */
  function Filter<K(==), V(==)>(d: Dict<K, V>, keep: seq<bool>): (r: Dict<K, V>)
    requires |keep| == |d|
    ensures |r| <= |d|
    ensures forall i :: 0 <= i < |r| ==> r[i] in d
  {
    if d == [] then []
    else Filter(d[..|d| - 1], keep[..|d| - 1]) + (if keep[|d| - 1] then [d[|d| - 1]] else [])
  }

  /** Filtering one more entry appends it exactly when its flag is set. */
  lemma FilterSnoc<K, V>(d: Dict<K, V>, keep: seq<bool>, j: nat)
    requires |keep| == |d| && j < |d|
    ensures Filter(d[..j + 1], keep[..j + 1]) == Filter(d[..j], keep[..j]) + (if keep[j] then [d[j]] else [])
  {
    assert d[..j + 1][..j] == d[..j] && keep[..j + 1][..j] == keep[..j];
  }

  /** In a dict with distinct keys, putting entry `j` into the entries before it
      appends it. */
  lemma PutNext<K, V>(d: Dict<K, V>, j: nat)
    requires Valid(d) && j < |d|
    ensures Put(d[..j], d[j].0, d[j].1) == d[..j + 1]
  {
    forall i | 0 <= i < j ensures d[..j][i].0 != d[j].0 {
      assert d[..j][i] == d[i];
    }
    assert d[..j] + [d[j]] == d[..j + 1];
  }

  /** In a dict with distinct keys, the entries filtered from before position `j` do
      not hold the key at `j`, so putting entry `j` after them appends it. */
  lemma FilterPut<K, V>(d: Dict<K, V>, keep: seq<bool>, j: nat)
    requires |keep| == |d| && Valid(d) && j < |d|
    ensures Put(Filter(d[..j], keep[..j]), d[j].0, d[j].1) == Filter(d[..j], keep[..j]) + [d[j]]
  {
    var kept := Filter(d[..j], keep[..j]);
    forall i | 0 <= i < |kept| ensures kept[i].0 != d[j].0 {
      var m :| 0 <= m < j && d[..j][m] == kept[i];
      assert d[m] == d[..j][m];
    }
    assert Find(kept, d[j].0).None?;
  }

  /** One more turn of a filtering loop over a dict with distinct keys: entry `j` is
      put into the entries kept so far exactly when its flag is set. */
  lemma FilterStep<K, V>(d: Dict<K, V>, keep: seq<bool>, j: nat)
    requires |keep| == |d| && Valid(d) && j < |d|
    ensures Filter(d[..j + 1], keep[..j + 1]) ==
      if keep[j] then Put(Filter(d[..j], keep[..j]), d[j].0, d[j].1) else Filter(d[..j], keep[..j])
  {
    FilterSnoc(d, keep, j);
    if keep[j] {
      FilterPut(d, keep, j);
    } else {
      assert Filter(d[..j], keep[..j]) + [] == Filter(d[..j], keep[..j]);
    }
  }

  /** Filtering keeps the keys distinct. */
  lemma {:induction false} FilterValid<K, V>(d: Dict<K, V>, keep: seq<bool>)
    requires |keep| == |d| && Valid(d)
    ensures Valid(Filter(d, keep))
  {
    if d != [] {
      var init, last := d[..|d| - 1], d[|d| - 1];
      var kept := Filter(init, keep[..|d| - 1]);
      FilterValid(init, keep[..|d| - 1]);
      if keep[|d| - 1] {
        forall i | 0 <= i < |kept| ensures kept[i].0 != last.0 {
          var m :| 0 <= m < |init| && init[m] == kept[i];
          assert d[m] == init[m];
        }
      }
    }
  }

  /** The filtered dict holds a key exactly when the dict does and the key's entry is
      flagged, with the value unchanged. */
  lemma {:induction false} FilterGet<K, V>(d: Dict<K, V>, keep: seq<bool>, k: K)
    requires |keep| == |d| && Valid(d)
    ensures Get(Filter(d, keep), k) == if Find(d, k).Some? && keep[Find(d, k).value] then Get(d, k) else None
  {
    if d != [] {
      var init, last, flags := d[..|d| - 1], d[|d| - 1], keep[..|d| - 1];
      var kept := Filter(init, flags);
      assert last == (last.0, last.1);
      assert d == init + [last];
      assert Filter(d, keep) == kept + (if keep[|d| - 1] then [last] else []);
      FindAppend(init, last.0, last.1, k);
      GetAppend(init, last.0, last.1, k);
      FilterGet(init, flags, k);
      if keep[|d| - 1] {
        GetAppend(kept, last.0, last.1, k);
      }
      if Find(init, k).Some? {
        var i := Find(init, k).value;
        assert Find(d, k) == Some(i) && keep[i] == flags[i] && Get(d, k) == Get(init, k);
        assert Get(Filter(d, keep), k) == Get(kept, k) by {
          assert k != last.0;
          if keep[|d| - 1] {
            assert Filter(d, keep) == kept + [(last.0, last.1)];
          } else {
            assert Filter(d, keep) == kept;
          }
        }
      } else if k == last.0 {
        assert Find(d, k) == Some(|init|) && Get(d, k) == Some(last.1);
        assert Get(Filter(d, keep), k) == if keep[|d| - 1] then Some(last.1) else None by {
          assert Get(kept, k).None?;
        }
      } else {
        assert Find(d, k).None?;
        assert Get(Filter(d, keep), k).None? by {
          assert Get(kept, k).None?;
        }
      }
    }
  }
}
