/** Python dictionaries with string keys. They remember insertion order, so a
    dictionary is a sequence of entries with distinct keys: assigning to a key
    that is present keeps its position, a new key goes to the end. */
module OrderedMaps {
  import opened Wrappers

  datatype Entry<V> = Entry(key: string, value: V)

  type Dict<V> = seq<Entry<V>>

  /** `list(d.keys())` */
  function Keys<V>(d: Dict<V>): (ks: seq<string>)
    ensures |ks| == |d|
    ensures forall i | 0 <= i < |d| :: ks[i] == d[i].key
  {
    seq(|d|, i requires 0 <= i < |d| => d[i].key)
  }

  predicate UniqueKeys<V>(d: Dict<V>) {
    forall i, j | 0 <= i < j < |d| :: d[i].key != d[j].key
  }

  /** `d[k] if k in d else None` */
  function Get<V>(d: Dict<V>, k: string): (r: Option<V>)
    ensures r.Some? <==> k in Keys(d)
  {
    if d == [] then None
    else if d[0].key == k then Some(d[0].value)
    else
      var r := Get(d[1..], k);
      assert Keys(d) == [d[0].key] + Keys(d[1..]);
      r
  }

  /** `d[k] = v` */
  function Put<V>(d: Dict<V>, k: string, v: V): (r: Dict<V>)
    ensures |r| >= |d|
  {
    if d == [] then [Entry(k, v)]
    else if d[0].key == k then [Entry(k, v)] + d[1..]
    else [d[0]] + Put(d[1..], k, v)
  }

  /** Assignment stores `v` under `k`, leaves every other key's value alone,
      keeps the key order (appending `k` when it is new) and keeps keys
      distinct. */
  lemma PutSpec<V>(d: Dict<V>, k: string, v: V)
    ensures Get(Put(d, k, v), k) == Some(v)
    ensures forall k' | k' != k :: Get(Put(d, k, v), k') == Get(d, k')
    ensures Keys(Put(d, k, v)) == if k in Keys(d) then Keys(d) else Keys(d) + [k]
    ensures UniqueKeys(d) ==> UniqueKeys(Put(d, k, v))
  {
    PutGet(d, k, v);
    forall k' | k' != k ensures Get(Put(d, k, v), k') == Get(d, k') {
      PutOther(d, k, v, k');
    }
    PutKeys(d, k, v);
    if UniqueKeys(d) {
      PutUnique(d, k, v);
    }
  }

  lemma {:induction false} PutGet<V>(d: Dict<V>, k: string, v: V)
    ensures Get(Put(d, k, v), k) == Some(v)
  {
    if d != [] && d[0].key != k {
      PutGet(d[1..], k, v);
      assert Put(d, k, v)[1..] == Put(d[1..], k, v);
    }
  }

  lemma {:induction false} PutOther<V>(d: Dict<V>, k: string, v: V, k': string)
    requires k' != k
    ensures Get(Put(d, k, v), k') == Get(d, k')
  {
    if d == [] {
    } else if d[0].key == k {
      assert Put(d, k, v)[1..] == d[1..];
    } else {
      PutOther(d[1..], k, v, k');
      assert Put(d, k, v)[1..] == Put(d[1..], k, v);
    }
  }

  lemma {:induction false} PutKeys<V>(d: Dict<V>, k: string, v: V)
    ensures Keys(Put(d, k, v)) == if k in Keys(d) then Keys(d) else Keys(d) + [k]
  {
    var r := Put(d, k, v);
    if d == [] {
    } else if d[0].key == k {
      KeysCons(d[0], d[1..]);
      KeysCons(Entry(k, v), d[1..]);
      assert d == [d[0]] + d[1..];
    } else {
      var t := Put(d[1..], k, v);
      PutKeys(d[1..], k, v);
      KeysCons(d[0], d[1..]);
      KeysCons(d[0], t);
      assert d == [d[0]] + d[1..];
      assert k in Keys(d) <==> k in Keys(d[1..]);
      if k !in Keys(d[1..]) {
        assert Keys(r) == [d[0].key] + (Keys(d[1..]) + [k]);
      }
    }
  }

  lemma KeysCons<V>(e: Entry<V>, t: Dict<V>)
    ensures Keys([e] + t) == [e.key] + Keys(t)
  {
  }

  lemma {:induction false} PutUnique<V>(d: Dict<V>, k: string, v: V)
    requires UniqueKeys(d)
    ensures UniqueKeys(Put(d, k, v))
  {
    if d == [] {
    } else if d[0].key == k {
      var r := Put(d, k, v);
      forall i, j | 0 <= i < j < |r| ensures r[i].key != r[j].key {
        assert r[j] == d[j];
        if i > 0 { assert r[i] == d[i]; }
      }
    } else {
      TailUnique(d);
      PutUnique(d[1..], k, v);
      var t := Put(d[1..], k, v);
      PutKeys(d[1..], k, v);
      assert d[0].key !in Keys(t);
      UniqueAfterHead(d[0], t);
    }
  }

  /** The tail of a dictionary with distinct keys has distinct keys and lacks
      the head's key. */
  lemma TailUnique<V>(d: Dict<V>)
    requires UniqueKeys(d) && d != []
    ensures UniqueKeys(d[1..]) && d[0].key !in Keys(d[1..])
  {
    forall i, j | 0 <= i < j < |d[1..]| ensures d[1..][i].key != d[1..][j].key {
      assert d[1..][i] == d[i + 1] && d[1..][j] == d[j + 1];
    }
    forall i | 0 <= i < |d[1..]| ensures Keys(d[1..])[i] != d[0].key {
      assert d[1..][i] == d[i + 1];
    }
  }

  /** A head entry whose key the tail lacks keeps the keys distinct. */
  lemma UniqueAfterHead<V>(e: Entry<V>, t: Dict<V>)
    requires UniqueKeys(t) && e.key !in Keys(t)
    ensures UniqueKeys([e] + t)
  {
    var r := [e] + t;
    forall i, j | 0 <= i < j < |r| ensures r[i].key != r[j].key {
      assert r[j] == t[j - 1];
      if i > 0 {
        assert r[i] == t[i - 1];
      } else {
        assert Keys(t)[j - 1] == t[j - 1].key;
      }
    }
  }

  /** With distinct keys, the value stored under a key is the one in its entry. */
  lemma {:induction false} GetOfEntry<V>(d: Dict<V>, i: nat)
    requires UniqueKeys(d) && i < |d|
    ensures Get(d, d[i].key) == Some(d[i].value)
  {
    if i > 0 {
      assert d[0].key != d[i].key;
      TailUnique(d);
      assert d[1..][i - 1] == d[i];
      GetOfEntry(d[1..], i - 1);
    }
  }

  /** `{k: f(v) for k, v in d.items()}` */
  function MapValues<V, W>(d: Dict<V>, f: V -> W): (r: Dict<W>)
    ensures |r| == |d|
    ensures forall i | 0 <= i < |d| :: r[i] == Entry(d[i].key, f(d[i].value))
  {
    seq(|d|, i requires 0 <= i < |d| => Entry(d[i].key, f(d[i].value)))
  }

  /** Applying `f` to every value commutes with assignment. */
  lemma {:induction false} MapValuesPut<V, W>(d: Dict<V>, k: string, v: V, f: V -> W)
    ensures MapValues(Put(d, k, v), f) == Put(MapValues(d, f), k, f(v))
  {
    if d != [] && d[0].key != k {
      MapValuesPut(d[1..], k, v, f);
      assert MapValues(d, f)[1..] == MapValues(d[1..], f);
      assert MapValues(Put(d, k, v), f) == [Entry(d[0].key, f(d[0].value))] + MapValues(Put(d[1..], k, v), f);
    } else if d != [] {
      assert MapValues(Put(d, k, v), f) == [Entry(k, f(v))] + MapValues(d[1..], f);
      assert MapValues(d, f)[1..] == MapValues(d[1..], f);
    }
  }

  lemma KeysOfMapValues<V, W>(d: Dict<V>, f: V -> W)
    ensures Keys(MapValues(d, f)) == Keys(d)
  {
  }

  /** Looking up a mapped dictionary maps the looked-up value. */
  lemma {:induction false} GetMapValues<V, W>(d: Dict<V>, f: V -> W, k: string)
    ensures Get(MapValues(d, f), k) == if Get(d, k).Some? then Some(f(Get(d, k).value)) else None
  {
    if d != [] && d[0].key != k {
      assert MapValues(d, f)[1..] == MapValues(d[1..], f);
      GetMapValues(d[1..], f, k);
    }
  }
}
