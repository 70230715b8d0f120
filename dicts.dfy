/**
 * A Python `dict` with string keys. CPython dictionaries remember insertion
 * order: assigning to a present key replaces its value in place, assigning to
 * a new key appends it, and deleting a key closes the gap. The order matters
 * to the model because `values()` and `items()` are iterated by the code.
 */
module Dicts {
  import opened Base

  datatype Entry<V> = Entry(key: string, value: V)

  type Dict<V> = seq<Entry<V>>

  /** No key is stored twice; every dictionary the program builds has this property. */
  ghost predicate DistinctKeys<V>(d: Dict<V>) {
    forall i, j :: 0 <= i < j < |d| ==> d[i].key != d[j].key
  }

  function Keys<V>(d: Dict<V>): set<string> {
    set i | 0 <= i < |d| :: d[i].key
  }

  lemma KeysCons<V>(e: Entry<V>, t: Dict<V>)
    ensures Keys([e] + t) == {e.key} + Keys(t)
  {
    var d := [e] + t;
    forall k | k in Keys(d) ensures k in {e.key} + Keys(t) {
      var i :| 0 <= i < |d| && d[i].key == k;
      if i > 0 { assert t[i - 1].key == k; }
    }
    forall k | k in Keys(t) ensures k in Keys(d) {
      var i :| 0 <= i < |t| && t[i].key == k;
      assert d[i + 1].key == k;
    }
    assert d[0].key == e.key;
  }

  /** Dropping the first entry keeps the keys distinct, and the first key does not come back. */
  lemma DistinctTail<V>(d: Dict<V>)
    requires DistinctKeys(d) && d != []
    ensures DistinctKeys(d[1..]) && d[0].key !in Keys(d[1..])
  {
    var t := d[1..];
    forall i, j | 0 <= i < j < |t| ensures t[i].key != t[j].key {
      assert t[i] == d[i + 1] && t[j] == d[j + 1];
    }
    forall i | 0 <= i < |t| ensures t[i].key != d[0].key {
      assert t[i] == d[i + 1];
    }
  }

  /** With distinct keys, `len(d)` is the number of keys. */
  lemma {:induction false} DistinctKeysCount<V>(d: Dict<V>)
    requires DistinctKeys(d)
    ensures |Keys(d)| == |d|
    decreases |d|
  {
    if d != [] {
      assert d == [d[0]] + d[1..];
      KeysCons(d[0], d[1..]);
      DistinctTail(d);
      DistinctKeysCount(d[1..]);
    }
  }

  /** The stored values in iteration order: `d.values()`. */
  function Values<V>(d: Dict<V>): (r: seq<V>)
    ensures |r| == |d|
    ensures forall i :: 0 <= i < |d| ==> r[i] == d[i].value
  {
    seq(|d|, i requires 0 <= i < |d| => d[i].value)
  }

  /** `d.get(k)`: the value stored under `k`, or `None`. */
  function Get<V>(d: Dict<V>, k: string): (r: Option<V>)
    ensures r.Some? <==> k in Keys(d)
    ensures r.Some? ==> exists i :: 0 <= i < |d| && d[i] == Entry(k, r.value)
  {
    if d == [] then None
    else if d[0].key == k then Some(d[0].value)
    else
      KeysCons(d[0], d[1..]);
      assert d == [d[0]] + d[1..];
      var r := Get(d[1..], k);
      assert r.Some? ==> exists i :: 0 <= i < |d| && d[i] == Entry(k, r.value) by {
        if r.Some? {
          var i :| 0 <= i < |d[1..]| && d[1..][i] == Entry(k, r.value);
          assert d[i + 1] == Entry(k, r.value);
        }
      }
      r
  }

  /** `d[k] = v`: a present key keeps its place and takes the new value, a new key goes last. */
  function Put<V>(d: Dict<V>, k: string, v: V): (r: Dict<V>)
    ensures Keys(r) == Keys(d) + {k}
    ensures |r| == if k in Keys(d) then |d| else |d| + 1
  {
    if d == [] then
      assert [Entry(k, v)][0].key == k;
      [Entry(k, v)]
    else
      KeysCons(d[0], d[1..]);
      assert d == [d[0]] + d[1..];
      if d[0].key == k then
        KeysCons(Entry(k, v), d[1..]);
        [Entry(k, v)] + d[1..]
      else
        var tail := Put(d[1..], k, v);
        KeysCons(d[0], tail);
        [d[0]] + tail
  }

  /** Reading after `d[k] = v` sees `v` at `k` and the old value everywhere else. */
  lemma {:induction false} GetPut<V>(d: Dict<V>, k: string, v: V, k': string)
    ensures Get(Put(d, k, v), k') == if k' == k then Some(v) else Get(d, k')
    decreases |d|
  {
    if d != [] && d[0].key != k {
      GetPut(d[1..], k, v, k');
      assert Put(d, k, v)[1..] == Put(d[1..], k, v);
    } else if d != [] {
      assert Put(d, k, v)[1..] == d[1..];
    }
  }

  /** Assigning to a new key appends one entry. */
  lemma {:induction false} PutFresh<V>(d: Dict<V>, k: string, v: V)
    requires k !in Keys(d)
    ensures Put(d, k, v) == d + [Entry(k, v)]
    decreases |d|
  {
    if d != [] {
      KeysCons(d[0], d[1..]);
      assert d == [d[0]] + d[1..];
      PutFresh(d[1..], k, v);
      assert [d[0]] + (d[1..] + [Entry(k, v)]) == d + [Entry(k, v)];
    }
  }

  /** Assignment never stores a key twice. */
  lemma {:induction false} PutDistinct<V>(d: Dict<V>, k: string, v: V)
    requires DistinctKeys(d)
    ensures DistinctKeys(Put(d, k, v))
    decreases |d|
  {
    if d != [] {
      var r := Put(d, k, v);
      assert d == [d[0]] + d[1..];
      KeysCons(d[0], d[1..]);
      assert DistinctKeys(d[1..]) by {
        forall i, j | 0 <= i < j < |d[1..]| ensures d[1..][i].key != d[1..][j].key {
          assert d[1..][i] == d[i + 1] && d[1..][j] == d[j + 1];
        }
      }
      assert d[0].key !in Keys(d[1..]) by {
        forall i | 0 <= i < |d[1..]| ensures d[1..][i].key != d[0].key {
          assert d[1..][i] == d[i + 1];
        }
      }
      var tail := r[1..];
      if d[0].key == k {
        assert tail == d[1..];
      } else {
        assert tail == Put(d[1..], k, v);
        PutDistinct(d[1..], k, v);
      }
      forall i, j | 0 <= i < j < |r| ensures r[i].key != r[j].key {
        if i == 0 {
          assert r[j] == tail[j - 1];
          assert tail[j - 1].key in Keys(tail);
        } else {
          assert r[i] == tail[i - 1] && r[j] == tail[j - 1];
        }
      }
    }
  }

  /** `del d[k]` (or `pop(k, None)`): the entry under `k` is dropped and the rest keep their order. */
  function Delete<V>(d: Dict<V>, k: string): (r: Dict<V>)
    ensures Keys(r) == Keys(d) - {k}
    ensures |r| <= |d|
  {
    if d == [] then []
    else
      KeysCons(d[0], d[1..]);
      assert d == [d[0]] + d[1..];
      var tail := Delete(d[1..], k);
      if d[0].key == k then tail
      else
        KeysCons(d[0], tail);
        [d[0]] + tail
  }

  /** Reading after `del d[k]` finds nothing at `k` and the old value everywhere else. */
  lemma {:induction false} GetDelete<V>(d: Dict<V>, k: string, k': string)
    ensures Get(Delete(d, k), k') == if k' == k then None else Get(d, k')
    decreases |d|
  {
    if d != [] {
      GetDelete(d[1..], k, k');
      if d[0].key != k {
        assert Delete(d, k)[0] == d[0] && Delete(d, k)[1..] == Delete(d[1..], k);
      }
    }
  }

  /** Deleting an absent key changes nothing. */
  lemma {:induction false} DeleteAbsent<V>(d: Dict<V>, k: string)
    requires k !in Keys(d)
    ensures Delete(d, k) == d
    decreases |d|
  {
    if d != [] {
      KeysCons(d[0], d[1..]);
      assert d == [d[0]] + d[1..];
      DeleteAbsent(d[1..], k);
    }
  }

  /** The entries left by `Delete` are entries of the dictionary, in their order, so no key repeats. */
  lemma {:induction false} DeleteDistinct<V>(d: Dict<V>, k: string)
    requires DistinctKeys(d)
    ensures DistinctKeys(Delete(d, k))
    decreases |d|
  {
    if d != [] {
      var r := Delete(d, k);
      assert d == [d[0]] + d[1..];
      KeysCons(d[0], d[1..]);
      assert DistinctKeys(d[1..]) by {
        forall i, j | 0 <= i < j < |d[1..]| ensures d[1..][i].key != d[1..][j].key {
          assert d[1..][i] == d[i + 1] && d[1..][j] == d[j + 1];
        }
      }
      assert d[0].key !in Keys(d[1..]) by {
        forall i | 0 <= i < |d[1..]| ensures d[1..][i].key != d[0].key {
          assert d[1..][i] == d[i + 1];
        }
      }
      var tail := Delete(d[1..], k);
      DeleteDistinct(d[1..], k);
      if d[0].key != k {
        forall i, j | 0 <= i < j < |r| ensures r[i].key != r[j].key {
          if i == 0 {
            assert r[j] == tail[j - 1];
            assert tail[j - 1].key in Keys(tail);
          } else {
            assert r[i] == tail[i - 1] && r[j] == tail[j - 1];
          }
        }
      }
    }
  }
}
