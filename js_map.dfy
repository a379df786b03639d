/** JavaScript's `Map` with string keys, as the parser uses it: an
    insertion-ordered list of key/value pairs with distinct keys, built by
    `new Map(entries)`, read by `get` and `values()`. A JavaScript object
    `{ [key: string]: V }` is represented by the list `Object.entries` gives. */
module JsMap {

  datatype Option<T> = None | Some(value: T)

  /** Key/value pairs in insertion order. */
  type Entries<V> = seq<(string, V)>

  function Keys<V>(m: Entries<V>): set<string>
  {
    set j | 0 <= j < |m| :: m[j].0
  }

  lemma KeysCons<V>(x: (string, V), m: Entries<V>)
    ensures Keys([x] + m) == {x.0} + Keys(m)
  {
    var xm := [x] + m;
    assert xm[0] == x;
    forall k | k in Keys(m) ensures k in Keys(xm) {
      var j :| 0 <= j < |m| && m[j].0 == k;
      assert xm[j + 1] == m[j];
    }
    forall k | k in Keys(xm) ensures k in {x.0} + Keys(m) {
      var j :| 0 <= j < |xm| && xm[j].0 == k;
      if j > 0 { assert xm[j] == m[j - 1]; }
    }
  }

  predicate DistinctKeys<V>(m: Entries<V>)
  {
    forall i, j :: 0 <= i < j < |m| ==> m[i].0 != m[j].0
  }

  lemma DistinctCons<V>(x: (string, V), m: Entries<V>)
    ensures DistinctKeys([x] + m) <==> DistinctKeys(m) && x.0 !in Keys(m)
  {
    var xm := [x] + m;
    assert forall j :: 0 <= j < |m| ==> xm[j + 1] == m[j];
    if DistinctKeys(xm) {
      forall j | 0 <= j < |m| ensures m[j].0 != x.0 {
        assert xm[0].0 != xm[j + 1].0;
      }
    }
  }

  /** `m.values()`, in insertion order. */
  function Values<V>(m: Entries<V>): seq<V>
  {
    seq(|m|, j requires 0 <= j < |m| => m[j].1)
  }

  /** `m.get(k)`: the value stored under `k`, or None (JavaScript's `undefined`). */
  function Get<V>(m: Entries<V>, k: string): (r: Option<V>)
    ensures r.None? <==> k !in Keys(m)
  {
    if m == [] then None
    else if m[0].0 == k then Some(m[0].1)
    else
      KeysCons(m[0], m[1..]);
      Get(m[1..], k)
  }

  /** In a Map with distinct keys, `get` finds the one pair with that key. */
  lemma {:induction false} GetDistinct<V>(m: Entries<V>, j: nat)
    requires DistinctKeys(m) && j < |m|
    ensures Get(m, m[j].0) == Some(m[j].1)
  {
    if j > 0 {
      assert m[0].0 != m[j].0;
      GetDistinct(m[1..], j - 1);
    }
  }

  /** `m.set(k, v)`: an existing key keeps its position and takes the new value;
      a new key goes at the end. */
  function Set<V>(m: Entries<V>, k: string, v: V): Entries<V>
  {
    if m == [] then [(k, v)]
    else if m[0].0 == k then [(k, v)] + m[1..]
    else [m[0]] + Set(m[1..], k, v)
  }

  /** `set` adds its key to the keys, and keeps the keys distinct. */
  lemma {:induction false} SetKeys<V>(m: Entries<V>, k: string, v: V)
    ensures Keys(Set(m, k, v)) == Keys(m) + {k}
    ensures DistinctKeys(m) ==> DistinctKeys(Set(m, k, v))
  {
    if m == [] {
      KeysCons((k, v), m);
    } else if m[0].0 == k {
      KeysCons(m[0], m[1..]);
      KeysCons((k, v), m[1..]);
      DistinctCons(m[0], m[1..]);
      DistinctCons((k, v), m[1..]);
    } else {
      SetKeys(m[1..], k, v);
      var rest := Set(m[1..], k, v);
      KeysCons(m[0], m[1..]);
      KeysCons(m[0], rest);
      DistinctCons(m[0], m[1..]);
      DistinctCons(m[0], rest);
    }
  }

  /** Setting a key the Map lacks appends the pair. */
  lemma {:induction false} SetNewKey<V>(m: Entries<V>, k: string, v: V)
    requires k !in Keys(m)
    ensures Set(m, k, v) == m + [(k, v)]
  {
    if m != [] {
      KeysCons(m[0], m[1..]);
      SetNewKey(m[1..], k, v);
      assert [m[0]] + (m[1..] + [(k, v)]) == m + [(k, v)];
    }
  }

  /** After `m.set(k, v)`, `get(k)` gives v and every other key reads as before. */
  lemma {:induction false} GetAfterSet<V>(m: Entries<V>, k: string, v: V, k': string)
    ensures Get(Set(m, k, v), k') == if k' == k then Some(v) else Get(m, k')
  {
    if m != [] && m[0].0 != k {
      GetAfterSet(m[1..], k, v, k');
      var r := Set(m, k, v);
      assert r[0] == m[0] && r[1..] == Set(m[1..], k, v);
    } else if m != [] {
      assert Set(m, k, v)[1..] == m[1..];
    }
  }

  /** `new Map(entries)`: the pairs are set one after the other, so for a key
      listed twice the later value wins. */
  function FromEntries<V>(es: Entries<V>): (r: Entries<V>)
    ensures Keys(r) == Keys(es)
    ensures DistinctKeys(r)
    decreases |es|
  {
    if es == [] then []
    else
      var init := es[..|es| - 1];
      var last := es[|es| - 1];
      assert Keys(es) == Keys(init) + {last.0};
      SetKeys(FromEntries(init), last.0, last.1);
      Set(FromEntries(init), last.0, last.1)
  }

  /** Built from pairs whose keys are distinct (the entries of a JavaScript
      object always are), the Map holds exactly those pairs in the same order. */
  lemma {:induction false} FromDistinctEntries<V>(es: Entries<V>)
    requires DistinctKeys(es)
    ensures FromEntries(es) == es
    decreases |es|
  {
    if es != [] {
      var init := es[..|es| - 1];
      assert DistinctKeys(init);
      FromDistinctEntries(init);
      assert es[|es| - 1].0 !in Keys(init);
      SetNewKey(init, es[|es| - 1].0, es[|es| - 1].1);
      assert init + [es[|es| - 1]] == es;
    }
  }

  /** Whatever the entries, a key's value in the built Map is the value of the
      last pair listing that key. */
  lemma {:induction false} FromEntriesLastWins<V>(es: Entries<V>, j: nat)
    requires j < |es|
    requires forall i :: j < i < |es| ==> es[i].0 != es[j].0
    ensures Get(FromEntries(es), es[j].0) == Some(es[j].1)
    decreases |es|
  {
    var init := es[..|es| - 1];
    var last := es[|es| - 1];
    GetAfterSet(FromEntries(init), last.0, last.1, es[j].0);
    if j < |es| - 1 {
      FromEntriesLastWins(init, j);
    }
  }
}
