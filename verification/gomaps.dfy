/**
 * Go maps as the converter reads them: by key, and by ranging over every entry in an order the
 * language leaves unspecified (it is deliberately randomised at run time). The model fixes no
 * order: Enumerate picks one with `:|`, and nothing proved about the converter depends on which.
 */
module GoMaps {
  import opened Wrappers

  /** e lists every entry of m exactly once, in some order. */
  ghost predicate Enumerates<K, V>(e: seq<(K, V)>, m: map<K, V>) {
    && |e| == |m|
    && (forall i, j :: 0 <= i < j < |e| ==> e[i].0 != e[j].0)
    && (forall i :: 0 <= i < |e| ==> e[i].0 in m && m[e[i].0] == e[i].1)
    && (forall k {:trigger (k, m[k]) in e} :: k in m ==> (k, m[k]) in e)
  }

  /** One enumeration of m; which one is left open. */
  ghost function Enumerate<K, V>(m: map<K, V>): (e: seq<(K, V)>)
    ensures Enumerates(e, m)
    decreases |m|
  {
    if |m| == 0 then []
    else
      var k :| k in m;
      var rest := m - {k};
      assert rest.Keys == m.Keys - {k};
      var e := Enumerate(rest);
      EnumeratesCons(k, m, e);
      [(k, m[k])] + e
  }

  lemma EnumeratesCons<K, V>(k: K, m: map<K, V>, e: seq<(K, V)>)
    requires k in m
    requires Enumerates(e, m - {k})
    ensures Enumerates([(k, m[k])] + e, m)
  {
    var rest := m - {k};
    assert rest.Keys == m.Keys - {k};
    var e' := [(k, m[k])] + e;
    assert |e'| == |m|;
    forall i, j | 0 <= i < j < |e'|
      ensures e'[i].0 != e'[j].0
    {
      assert e'[j] == e[j - 1];
      if i > 0 {
        assert e'[i] == e[i - 1];
      }
    }
    forall i | 0 <= i < |e'|
      ensures e'[i].0 in m && m[e'[i].0] == e'[i].1
    {
      if i > 0 {
        assert e'[i] == e[i - 1];
      }
    }
    forall k' | k' in m
      ensures (k', m[k']) in e'
    {
      if k' != k {
        assert k' in rest;
        assert (k', rest[k']) in e;
      }
    }
  }

  /** The value a run of assignments `m[k] = v`, in the order of e, leaves at key k. */
  function LastValue<K(==), V>(e: seq<(K, V)>, k: K): Option<V> {
    if |e| == 0 then None
    else if e[|e| - 1].0 == k then Some(e[|e| - 1].1)
    else LastValue(e[..|e| - 1], k)
  }

  /**
   * Replaying any enumeration of m as assignments leaves exactly m's value at each key: the
   * outcome does not depend on the enumeration order, because the keys are distinct.
   */
  lemma {:induction false} LastValueOfEnumeration<K, V>(e: seq<(K, V)>, m: map<K, V>, k: K)
    requires Enumerates(e, m)
    ensures LastValue(e, k) == if k in m then Some(m[k]) else None
  {
    if k in m {
      assert (k, m[k]) in e;
      var i :| 0 <= i < |e| && e[i] == (k, m[k]);
      LastValueAt(e, i);
    } else {
      LastValueAbsent(e, k);
    }
  }

  lemma {:induction false} LastValueAt<K, V>(e: seq<(K, V)>, i: int)
    requires 0 <= i < |e|
    requires forall j :: i < j < |e| ==> e[j].0 != e[i].0
    ensures LastValue(e, e[i].0) == Some(e[i].1)
    decreases |e|
  {
    if i < |e| - 1 {
      LastValueAt(e[..|e| - 1], i);
    }
  }

  lemma {:induction false} LastValueAbsent<K, V>(e: seq<(K, V)>, k: K)
    requires forall j :: 0 <= j < |e| ==> e[j].0 != k
    ensures LastValue(e, k) == None
    decreases |e|
  {
    if |e| > 0 {
      LastValueAbsent(e[..|e| - 1], k);
    }
  }

  /**
   * r is f applied to the entries of m in the order of some enumeration: position by position,
   * so each key contributes exactly one element, even when f maps two entries alike.
   */
  ghost predicate CollectedFrom<K(!new), V(!new), T>(r: seq<T>, m: map<K, V>, f: (K, V) -> T) {
    exists e: seq<(K, V)> :: Enumerates(e, m) && |e| == |r| && forall i :: 0 <= i < |e| ==> r[i] == f(e[i].0, e[i].1)
  }

  /**
   * What a `for k, v := range m { out = append(out, f(k, v)) }` loop collects: one f(k, m[k])
   * per key, in the order of one enumeration of m.
   */
  ghost function CollectEntries<K(!new), V(!new), T>(m: map<K, V>, f: (K, V) -> T): (r: seq<T>)
    ensures |r| == |m|
    ensures CollectedFrom(r, m, f)
    ensures forall k :: k in m ==> f(k, m[k]) in r
    ensures forall i :: 0 <= i < |r| ==> exists k :: k in m && r[i] == f(k, m[k])
  {
    var e := Enumerate(m);
    var r := seq(|e|, i requires 0 <= i < |e| => f(e[i].0, e[i].1));
    CollectEntriesProperties(m, f, e, r);
    assert Enumerates(e, m) && |e| == |r| && forall i :: 0 <= i < |e| ==> r[i] == f(e[i].0, e[i].1);
    r
  }

  lemma CollectEntriesProperties<K, V, T>(m: map<K, V>, f: (K, V) -> T, e: seq<(K, V)>, r: seq<T>)
    requires Enumerates(e, m)
    requires |r| == |e|
    requires forall i :: 0 <= i < |e| ==> r[i] == f(e[i].0, e[i].1)
    ensures forall k :: k in m ==> f(k, m[k]) in r
    ensures forall i :: 0 <= i < |r| ==> exists k :: k in m && r[i] == f(k, m[k])
  {
    forall k | k in m
      ensures f(k, m[k]) in r
    {
      assert (k, m[k]) in e;
      var i :| 0 <= i < |e| && e[i] == (k, m[k]);
      assert r[i] == f(k, m[k]);
    }
    forall i | 0 <= i < |r|
      ensures exists k :: k in m && r[i] == f(k, m[k])
    {
      var k := e[i].0;
      assert k in m && r[i] == f(k, m[k]);
    }
  }

  /** Go's `m[k]` on a map of strings: the zero value "" when k is absent. */
  function IndexOrEmpty(m: map<string, string>, k: string): string {
    if k in m then m[k] else ""
  }
}
