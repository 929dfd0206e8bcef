/** Python's insertion-ordered `dict`, as a sequence of key/value pairs.
    Assigning to an existing key keeps its position; a new key goes last;
    `pop` removes the entry and keeps the order of the rest. */
module OrderedDict {
  import opened Wrappers
  import opened Seqs

  type Dict<K, V> = seq<(K, V)>

  /** The keys in iteration order (`list(d.keys())`). */
  function Keys<K, V>(m: Dict<K, V>): (ks: seq<K>)
    ensures |ks| == |m|
    ensures forall i :: 0 <= i < |m| ==> ks[i] == m[i].0
    decreases |m|
  {
    if |m| == 0 then [] else [m[0].0] + Keys(m[1..])
  }

  /** `d.get(k)`. */
  function Get<K(==,!new), V>(m: Dict<K, V>, k: K): (r: Option<V>)
    ensures r.None? <==> k !in Keys(m)
    decreases |m|
  {
    if |m| == 0 then None
    else if m[0].0 == k then Some(m[0].1)
    else Get(m[1..], k)
  }

  /** With distinct keys, `Get` returns the value stored beside the key. */
  lemma {:induction false} GetAt<K(!new), V>(m: Dict<K, V>, i: nat)
    requires Unique(Keys(m)) && i < |m|
    ensures Get(m, m[i].0) == Some(m[i].1)
    decreases i
  {
    if i > 0 {
      assert m[0].0 != m[i].0 by {
        assert Keys(m)[0] != Keys(m)[i];
      }
      assert Keys(m[1..]) == Keys(m)[1..];
      GetAt(m[1..], i - 1);
    }
  }

  /** `d[k] = v`. */
  function Put<K(==,!new), V>(m: Dict<K, V>, k: K, v: V): (r: Dict<K, V>)
    ensures Get(r, k) == Some(v)
    ensures forall k' :: k' != k ==> Get(r, k') == Get(m, k')
    ensures Keys(r) == if k in Keys(m) then Keys(m) else Keys(m) + [k]
    ensures forall i :: 0 <= i < |r| ==> r[i] == (k, v) || r[i] in m
    decreases |m|
  {
    if |m| == 0 then [(k, v)]
    else if m[0].0 == k then [(k, v)] + m[1..]
    else
      var rest := Put(m[1..], k, v);
      PutCons(m, k, v, rest);
      PutConsEntries(m, k, v, rest);
      [m[0]] + rest
  }

  /** `Get` on an entry put in front of others. */
  lemma GetCons<K(!new), V>(e: (K, V), rest: Dict<K, V>, k: K)
    ensures Get([e] + rest, k) == if e.0 == k then Some(e.1) else Get(rest, k)
  {
    assert ([e] + rest)[1..] == rest;
  }

  /** `Put`'s lookups carry over from the tail to the whole dict when the
      first key is another one. */
  lemma PutCons<K(!new), V>(m: Dict<K, V>, k: K, v: V, rest: Dict<K, V>)
    requires |m| > 0 && m[0].0 != k
    requires Get(rest, k) == Some(v)
    requires forall k' :: k' != k ==> Get(rest, k') == Get(m[1..], k')
    ensures var r := [m[0]] + rest;
      && Get(r, k) == Some(v)
      && (forall k' :: k' != k ==> Get(r, k') == Get(m, k'))
  {
    var r := [m[0]] + rest;
    GetCons(m[0], rest, k);
    forall k' | k' != k
      ensures Get(r, k') == Get(m, k')
    {
      GetCons(m[0], rest, k');
    }
  }

  /** `Put`'s key order and entries carry over from the tail to the whole
      dict when the first key is another one. */
  lemma PutConsEntries<K(!new), V>(m: Dict<K, V>, k: K, v: V, rest: Dict<K, V>)
    requires |m| > 0 && m[0].0 != k
    requires Keys(rest) == if k in Keys(m[1..]) then Keys(m[1..]) else Keys(m[1..]) + [k]
    requires forall i :: 0 <= i < |rest| ==> rest[i] == (k, v) || rest[i] in m[1..]
    ensures var r := [m[0]] + rest;
      && Keys(r) == (if k in Keys(m) then Keys(m) else Keys(m) + [k])
      && forall i :: 0 <= i < |r| ==> r[i] == (k, v) || r[i] in m
  {
    var r := [m[0]] + rest;
    assert Keys(m) == [m[0].0] + Keys(m[1..]);
    assert Keys(r) == [m[0].0] + Keys(rest);
    forall i | 0 <= i < |r|
      ensures r[i] == (k, v) || r[i] in m
    {
      if i > 0 {
        assert r[i] == rest[i - 1];
      }
    }
  }

  lemma PutUnique<K(!new), V>(m: Dict<K, V>, k: K, v: V)
    requires Unique(Keys(m))
    ensures Unique(Keys(Put(m, k, v)))
  {
    if k !in Keys(m) {
      AppendUnique(Keys(m), k);
    }
  }

  /** `d.pop(k)` (its value is read with `Get` beforehand). */
  function Remove<K(==,!new), V>(m: Dict<K, V>, k: K): (r: Dict<K, V>)
    ensures forall k' :: k' != k ==> Get(r, k') == Get(m, k')
    ensures Unique(Keys(m)) ==> Get(r, k) == None && Unique(Keys(r))
    ensures forall i :: 0 <= i < |r| ==> r[i] in m
    ensures Keys(r) == RemoveFirst(Keys(m), k)
    decreases |m|
  {
    if |m| == 0 then []
    else if m[0].0 == k then
      RemoveHead(m, k);
      m[1..]
    else
      var rest := Remove(m[1..], k);
      RemoveCons(m, k, rest);
      RemoveConsEntries(m, rest);
      [m[0]] + rest
  }

  /** Removing the first key leaves the tail. */
  lemma RemoveHead<K(!new), V>(m: Dict<K, V>, k: K)
    requires |m| > 0 && m[0].0 == k
    ensures var r := m[1..];
      && (forall k' :: k' != k ==> Get(r, k') == Get(m, k'))
      && (Unique(Keys(m)) ==> Get(r, k) == None && Unique(Keys(r)))
      && (forall i :: 0 <= i < |r| ==> r[i] in m)
      && Keys(r) == RemoveFirst(Keys(m), k)
  {
    assert Keys(m) == [m[0].0] + Keys(m[1..]);
    assert Keys(m)[1..] == Keys(m[1..]);
    if Unique(Keys(m)) {
      UniqueTail(Keys(m));
    }
    forall i | 0 <= i < |m| - 1
      ensures m[1..][i] in m
    {
      assert m[1..][i] == m[i + 1];
    }
  }

  /** `Remove`'s lookups carry over from the tail to the whole dict when the
      first key is another one. */
  lemma RemoveCons<K(!new), V>(m: Dict<K, V>, k: K, rest: Dict<K, V>)
    requires |m| > 0 && m[0].0 != k
    requires forall k' :: k' != k ==> Get(rest, k') == Get(m[1..], k')
    requires Unique(Keys(m[1..])) ==> Get(rest, k) == None && Unique(Keys(rest))
    requires Keys(rest) == RemoveFirst(Keys(m[1..]), k)
    ensures var r := [m[0]] + rest;
      && (forall k' :: k' != k ==> Get(r, k') == Get(m, k'))
      && (Unique(Keys(m)) ==> Get(r, k) == None && Unique(Keys(r)))
      && Keys(r) == RemoveFirst(Keys(m), k)
  {
    var r := [m[0]] + rest;
    assert Keys(m) == [m[0].0] + Keys(m[1..]);
    assert Keys(m)[1..] == Keys(m[1..]);
    assert Keys(r) == [m[0].0] + Keys(rest);
    forall k' | k' != k
      ensures Get(r, k') == Get(m, k')
    {
      GetCons(m[0], rest, k');
    }
    if Unique(Keys(m)) {
      UniqueTail(Keys(m));
      GetCons(m[0], rest, k);
      assert m[0].0 !in Keys(rest);
      ConsUnique(m[0].0, Keys(rest));
    }
  }

  /** The entries left after removal were entries before. */
  lemma RemoveConsEntries<K, V>(m: Dict<K, V>, rest: Dict<K, V>)
    requires |m| > 0
    requires forall i :: 0 <= i < |rest| ==> rest[i] in m[1..]
    ensures forall i :: 0 <= i < |rest| + 1 ==> ([m[0]] + rest)[i] in m
  {
    var r := [m[0]] + rest;
    forall i | 0 <= i < |r|
      ensures r[i] in m
    {
      if i > 0 {
        assert r[i] == rest[i - 1];
      }
    }
  }

  /** `dict(reversed(list(d.items())))`: the same entries in reverse order. */
  function Reversed<K(==,!new), V>(m: Dict<K, V>): (r: Dict<K, V>)
    ensures Keys(r) == Reverse(Keys(m))
    ensures Unique(Keys(m)) ==> Unique(Keys(r)) && forall k :: Get(r, k) == Get(m, k)
  {
    var r := Reverse(m);
    assert Keys(r) == Reverse(Keys(m));
    if Unique(Keys(m)) then
      ReverseUnique(Keys(m));
      ReversedGet(m);
      r
    else r
  }

  lemma ReversedGet<K(!new), V>(m: Dict<K, V>)
    requires Unique(Keys(m))
    ensures forall k :: Get(Reverse(m), k) == Get(m, k)
  {
    var r := Reverse(m);
    assert Keys(r) == Reverse(Keys(m));
    ReverseUnique(Keys(m));
    forall k
      ensures Get(r, k) == Get(m, k)
    {
      if k in Keys(m) {
        var i :| 0 <= i < |m| && Keys(m)[i] == k;
        GetAt(m, i);
        GetAt(r, |m| - 1 - i);
      } else {
        assert k !in Keys(r);
      }
    }
  }

  /** `{k: f(v) for k, v in d.items()}`. */
  function MapValues<K(==,!new), V, W>(m: Dict<K, V>, f: V -> W): (r: Dict<K, W>)
    ensures Keys(r) == Keys(m)
    ensures forall k :: Get(r, k) == (match Get(m, k) case None => None case Some(v) => Some(f(v)))
    decreases |m|
  {
    if |m| == 0 then [] else [(m[0].0, f(m[0].1))] + MapValues(m[1..], f)
  }
}
