/**
 * Python's `dict` as the programs use it: key/value pairs kept in insertion
 * order. Assigning to a key that is already present replaces its value in
 * place (the key keeps its position); a new key goes to the end.
 */
module PyDict {
  import opened Wrappers

  type Dict<V> = seq<(string, V)>

  /** The keys in iteration order. */
  function Keys<V>(d: Dict<V>): (ks: seq<string>)
    ensures |ks| == |d|
    ensures forall i :: 0 <= i < |d| ==> ks[i] == d[i].0
  {
    if d == [] then [] else [d[0].0] + Keys(d[1..])
  }

  /** No key occurs twice: the representation invariant of a dict. */
  predicate UniqueKeys<V>(d: Dict<V>) {
    forall i, j :: 0 <= i < j < |d| ==> d[i].0 != d[j].0
  }

  /** `d.get(k)`: the value stored under `k`, if any. */
  function Get<V>(d: Dict<V>, k: string): (r: Option<V>)
    ensures r.Some? <==> k in Keys(d)
  {
    if d == [] then None
    else if d[0].0 == k then Some(d[0].1)
    else Get(d[1..], k)
  }

  function GetOr<V>(o: Option<V>, default: V): V {
    if o.Some? then o.value else default
  }

  /** In a dict with unique keys, looking up the key at position `i` finds the value at `i`. */
  lemma {:induction false} GetAt<V>(d: Dict<V>, i: nat)
    requires UniqueKeys(d) && i < |d|
    ensures Get(d, d[i].0) == Some(d[i].1)
  {
    if i > 0 {
      assert d[0].0 != d[i].0;
      assert d[1..][i - 1] == d[i];
      GetAt(d[1..], i - 1);
    }
  }

  lemma KeysCons<V>(x: (string, V), d: Dict<V>)
    ensures Keys([x] + d) == [x.0] + Keys(d)
  {
    assert ([x] + d)[1..] == d;
  }

  lemma {:induction false} KeysAppend<V>(a: Dict<V>, b: Dict<V>)
    ensures Keys(a + b) == Keys(a) + Keys(b)
  {
    if a != [] {
      assert (a + b)[1..] == a[1..] + b;
      KeysAppend(a[1..], b);
    }
  }

  /** `d[k] = v`. */
  function Put<V>(d: Dict<V>, k: string, v: V): (r: Dict<V>)
    ensures Keys(r) == if k in Keys(d) then Keys(d) else Keys(d) + [k]
  {
    if d == [] then [(k, v)]
    else if d[0].0 == k then [(k, v)] + d[1..]
    else [d[0]] + Put(d[1..], k, v)
  }

  /** After `d[k] = v`, `k` reads `v` and every other key reads as before. */
  lemma {:induction false} PutGet<V>(d: Dict<V>, k: string, v: V)
    ensures Get(Put(d, k, v), k) == Some(v)
    ensures forall k' :: k' != k ==> Get(Put(d, k, v), k') == Get(d, k')
  {
    if d != [] && d[0].0 != k {
      PutGet(d[1..], k, v);
    }
  }

  /** Assignment keeps the keys of a dict unique. */
  lemma PutUnique<V>(d: Dict<V>, k: string, v: V)
    requires UniqueKeys(d)
    ensures UniqueKeys(Put(d, k, v))
  {
    var r := Put(d, k, v);
    forall i, j | 0 <= i < j < |r| ensures r[i].0 != r[j].0 {
      assert Keys(r)[i] == r[i].0 && Keys(r)[j] == r[j].0;
      if k !in Keys(d) && j == |d| {
        assert Keys(d)[i] == d[i].0;
      } else {
        assert Keys(d)[i] == d[i].0 && Keys(d)[j] == d[j].0;
      }
    }
  }

  /** Assigning a key that is not present appends the pair. */
  lemma {:induction false} PutAbsent<V>(d: Dict<V>, k: string, v: V)
    requires k !in Keys(d)
    ensures Put(d, k, v) == d + [(k, v)]
  {
    if d != [] {
      var tail := d[1..];
      assert Keys(d)[0] == d[0].0;
      assert k !in Keys(tail) by {
        forall i | 0 <= i < |tail| ensures Keys(tail)[i] != k {
          assert Keys(tail)[i] == Keys(d)[i + 1];
        }
      }
      PutAbsent(tail, k, v);
      assert Put(d, k, v) == [d[0]] + (tail + [(k, v)]);
      assert d + [(k, v)] == [d[0]] + (tail + [(k, v)]);
    }
  }

  /** The value of the last pair with key `k`: which one survives a run of assignments. */
  function GetLast<V>(ps: Dict<V>, k: string): (r: Option<V>)
    ensures r.Some? <==> k in Keys(ps)
  {
    if ps == [] then None
    else
      var later := GetLast(ps[1..], k);
      if later.Some? then later
      else if ps[0].0 == k then Some(ps[0].1)
      else None
  }

  /** `d[k] = v` for every pair of `ps` in order: `{**d, **ps}`. */
  function PutAll<V>(d: Dict<V>, ps: Dict<V>): Dict<V>
    decreases |ps|
  {
    if ps == [] then d
    else PutAll(Put(d, ps[0].0, ps[0].1), ps[1..])
  }

  /** After a run of assignments each key reads its last assigned value, or its old one. */
  lemma {:induction false} PutAllGet<V>(d: Dict<V>, ps: Dict<V>)
    ensures forall k :: Get(PutAll(d, ps), k) == if k in Keys(ps) then GetLast(ps, k) else Get(d, k)
    decreases |ps|
  {
    if ps != [] {
      assert Keys(ps) == [ps[0].0] + Keys(ps[1..]);
      PutGet(d, ps[0].0, ps[0].1);
      PutAllGet(Put(d, ps[0].0, ps[0].1), ps[1..]);
    }
  }

  /** A run of assignments keeps the keys of a dict unique. */
  lemma {:induction false} PutAllUnique<V>(d: Dict<V>, ps: Dict<V>)
    requires UniqueKeys(d)
    ensures UniqueKeys(PutAll(d, ps))
    decreases |ps|
  {
    if ps != [] {
      PutUnique(d, ps[0].0, ps[0].1);
      PutAllUnique(Put(d, ps[0].0, ps[0].1), ps[1..]);
    }
  }

  /** `d` without the pair for `k`, order otherwise kept. */
  function Without<V>(d: Dict<V>, k: string): (r: Dict<V>)
    ensures k !in Keys(r)
    ensures forall k' :: k' != k ==> Get(r, k') == Get(d, k')
    ensures forall k' :: k' in Keys(r) ==> k' in Keys(d)
    ensures UniqueKeys(d) ==> UniqueKeys(r)
  {
    if d == [] then []
    else if d[0].0 == k then Without(d[1..], k)
    else
      var tail := Without(d[1..], k);
      assert UniqueKeys(d) ==> d[0].0 !in Keys(d[1..]);
      [d[0]] + tail
  }

  /** Removing a key that is not present changes nothing. */
  lemma {:induction false} WithoutAbsent<V>(d: Dict<V>, k: string)
    requires k !in Keys(d)
    ensures Without(d, k) == d
  {
    if d != [] {
      assert Keys(d)[0] == d[0].0;
      assert Keys(d[1..]) == Keys(d)[1..];
      WithoutAbsent(d[1..], k);
    }
  }

  /** The tail of a dict with unique keys has unique keys and lacks the head's key. */
  lemma UniqueTail<V>(d: Dict<V>)
    requires UniqueKeys(d) && d != []
    ensures UniqueKeys(d[1..]) && d[0].0 !in Keys(d[1..])
    ensures forall q :: q in Keys(d[1..]) ==> q in Keys(d)
  {
    assert Keys(d) == [d[0].0] + Keys(d[1..]);
    var tail := d[1..];
    forall j | 0 <= j < |tail| ensures Keys(tail)[j] != d[0].0 {
      assert tail[j] == d[j + 1];
    }
  }

  /** Appending a fresh key keeps the keys unique. */
  lemma UniqueSnoc<V>(d: Dict<V>, k: string, v: V)
    requires UniqueKeys(d) && k !in Keys(d)
    ensures UniqueKeys(d + [(k, v)]) && Keys(d + [(k, v)]) == Keys(d) + [k]
  {
    KeysAppend(d, [(k, v)]);
    var e := d + [(k, v)];
    forall i, j | 0 <= i < j < |e| ensures e[i].0 != e[j].0 {
      if j == |d| { assert Keys(d)[i] == d[i].0; }
    }
  }

  /** Assigning a key that is present replaces its pair where it stands. */
  lemma {:induction false} PutExisting<V>(d: Dict<V>, j: nat, v: V)
    requires UniqueKeys(d) && j < |d|
    ensures Put(d, d[j].0, v) == d[j := (d[j].0, v)]
  {
    if j > 0 {
      var k := d[j].0;
      var tail := d[1..];
      assert Put(d, k, v) == [d[0]] + Put(tail, k, v) by {
        assert d[0].0 != k;
      }
      assert Put(tail, k, v) == tail[j - 1 := (k, v)] by {
        UniqueTail(d);
        assert tail[j - 1] == d[j];
        PutExisting(tail, j - 1, v);
      }
      assert d[j := (k, v)] == [d[0]] + tail[j - 1 := (k, v)];
    } else {
      assert d[j := (d[j].0, v)] == [(d[0].0, v)] + d[1..];
    }
  }

  /** A value found by `Get` is stored in the dict under that key. */
  lemma {:induction false} GetIn<V>(d: Dict<V>, k: string)
    requires Get(d, k).Some?
    ensures (k, Get(d, k).value) in d
  {
    if d[0].0 != k {
      GetIn(d[1..], k);
    }
  }

  /** Removing a key keeps only pairs of the original dict. */
  lemma {:induction false} WithoutIn<V>(d: Dict<V>, k: string)
    ensures forall p :: p in Without(d, k) ==> p in d
  {
    if d != [] {
      WithoutIn(d[1..], k);
    }
  }

  /** Putting a fresh key in front keeps the keys unique. */
  lemma UniqueCons<V>(k: string, v: V, d: Dict<V>)
    requires UniqueKeys(d) && k !in Keys(d)
    ensures UniqueKeys([(k, v)] + d)
  {
    var e := [(k, v)] + d;
    forall i, j | 0 <= i < j < |e| ensures e[i].0 != e[j].0 {
      assert e[j] == d[j - 1];
      if i == 0 { assert Keys(d)[j - 1] == d[j - 1].0; }
      else { assert e[i] == d[i - 1]; }
    }
  }
}
