/**
 * Dictionaries as a sequence of (key, value) pairs kept in insertion order.
 * Assigning to a key that is present replaces its value where it stands;
 * assigning to a new key appends it. This is the iteration order of a
 * Python 3.7+ `dict`; a Python 2.7 `dict` iterates in hash order instead, so
 * only the lookups, not the positions, carry over to that interpreter.
 */
module OrderedDict {
  import opened Wrappers

  type Dict<V> = seq<(string, V)>

  function Keys<V>(d: Dict<V>): (ks: seq<string>)
    ensures |ks| == |d|
    decreases |d|
  {
    if d == [] then [] else [d[0].0] + Keys(d[1..])
  }

  lemma {:induction false} KeysAt<V>(d: Dict<V>, i: nat)
    requires i < |d|
    ensures Keys(d)[i] == d[i].0
    decreases |d|
  {
    if i > 0 {
      KeysAt(d[1..], i - 1);
    }
  }

  predicate NoDup(ks: seq<string>) {
    forall i, j :: 0 <= i < j < |ks| ==> ks[i] != ks[j]
  }

  /** `d[k]`, None standing for the KeyError. */
  function Get<V>(d: Dict<V>, k: string): Option<V>
    decreases |d|
  {
    if d == [] then None
    else if d[0].0 == k then Some(d[0].1)
    else Get(d[1..], k)
  }

  /** A lookup fails exactly for a key that is not present. */
  lemma {:induction false} GetNone<V>(d: Dict<V>, k: string)
    ensures Get(d, k).None? <==> k !in Keys(d)
    decreases |d|
  {
    if d != [] {
      GetNone(d[1..], k);
    }
  }

  /** `d[k] = v` */
  function Put<V>(d: Dict<V>, k: string, v: V): Dict<V>
    decreases |d|
  {
    if d == [] then [(k, v)]
    else if d[0].0 == k then [(k, v)] + d[1..]
    else [d[0]] + Put(d[1..], k, v)
  }

  /** After `d[k] = v`, k holds v and every other key holds what it held. */
  lemma {:induction false} PutGet<V>(d: Dict<V>, k: string, v: V, k': string)
    ensures Get(Put(d, k, v), k') == if k' == k then Some(v) else Get(d, k')
    decreases |d|
  {
    if d != [] && d[0].0 != k {
      PutGet(d[1..], k, v, k');
    }
  }

  /** A second assignment to the same key overrides the first. */
  lemma {:induction false} PutPut<V>(d: Dict<V>, k: string, v1: V, v2: V)
    ensures Put(Put(d, k, v1), k, v2) == Put(d, k, v2)
    decreases |d|
  {
    if d != [] && d[0].0 != k {
      PutPut(d[1..], k, v1, v2);
    }
  }

  /** `d[k] = v` keeps the key order, appending k when it is new. */
  lemma {:induction false} PutKeys<V>(d: Dict<V>, k: string, v: V)
    ensures Keys(Put(d, k, v)) == if k in Keys(d) then Keys(d) else Keys(d) + [k]
    decreases |d|
  {
    if d != [] && d[0].0 != k {
      PutKeys(d[1..], k, v);
      assert Keys(d) == [d[0].0] + Keys(d[1..]);
    }
  }

  /** Keys stay distinct under assignment. */
  lemma PutNoDup<V>(d: Dict<V>, k: string, v: V)
    requires NoDup(Keys(d))
    ensures NoDup(Keys(Put(d, k, v)))
  {
    PutKeys(d, k, v);
  }

  /** In a dictionary with distinct keys, looking up the key at position i finds the value at position i. */
  lemma {:induction false} GetAt<V>(d: Dict<V>, i: nat)
    requires NoDup(Keys(d)) && i < |d|
    ensures Get(d, d[i].0) == Some(d[i].1)
    decreases |d|
  {
    if i > 0 {
      KeysAt(d, 0);
      KeysAt(d, i);
      assert d[0].0 == Keys(d)[0] != Keys(d)[i] == d[i].0;
      assert NoDup(Keys(d[1..])) by {
        forall a, b | 0 <= a < b < |d| - 1 ensures Keys(d[1..])[a] != Keys(d[1..])[b] {
          assert Keys(d[1..])[a] == Keys(d)[a + 1] && Keys(d[1..])[b] == Keys(d)[b + 1];
        }
      }
      GetAt(d[1..], i - 1);
      assert d[1..][i - 1] == d[i];
    }
  }

  /** Two dictionaries with distinct keys, the same keys in the same order and the same lookups are equal. */
  lemma Extensionality<V>(a: Dict<V>, b: Dict<V>)
    requires NoDup(Keys(a)) && Keys(a) == Keys(b)
    requires forall k :: Get(a, k) == Get(b, k)
    ensures a == b
  {
    assert |a| == |b|;
    forall i | 0 <= i < |a| ensures a[i] == b[i] {
      GetAt(a, i);
      GetAt(b, i);
      KeysAt(a, i);
      KeysAt(b, i);
      assert a[i].0 == b[i].0;
    }
  }

  // ---------------------------------------------------------------------
  // A run of assignments
  // ---------------------------------------------------------------------

  /** The assignments `d[w[0].0] = w[0].1`, `d[w[1].0] = w[1].1`, ... in order. */
  function PutAll<V>(d: Dict<V>, w: seq<(string, V)>): Dict<V>
    decreases |w|
  {
    if w == [] then d else PutAll(Put(d, w[0].0, w[0].1), w[1..])
  }

  /** The value of the last assignment to k in w, if any. */
  function LastWrite<V>(w: seq<(string, V)>, k: string): Option<V>
    decreases |w|
  {
    if w == [] then None
    else match LastWrite(w[1..], k)
      case Some(v) => Some(v)
      case None => if w[0].0 == k then Some(w[0].1) else None
  }

  /** The key order after the assignments: a key keeps its first position, new keys are appended as they come. */
  function KeysAfter(ks: seq<string>, w: seq<string>): seq<string>
    decreases |w|
  {
    if w == [] then ks else KeysAfter(if w[0] in ks then ks else ks + [w[0]], w[1..])
  }

  /** Last write wins: after the assignments, a key holds its last assigned value, and a key never assigned keeps its old one. */
  lemma {:induction false} PutAllGet<V>(d: Dict<V>, w: seq<(string, V)>, k: string)
    ensures Get(PutAll(d, w), k) == if LastWrite(w, k).Some? then LastWrite(w, k) else Get(d, k)
    decreases |w|
  {
    if w != [] {
      PutAllGet(Put(d, w[0].0, w[0].1), w[1..], k);
      PutGet(d, w[0].0, w[0].1, k);
    }
  }

  /** The order of keys after the assignments, and that it stays duplicate-free. */
  lemma {:induction false} PutAllKeys<V>(d: Dict<V>, w: seq<(string, V)>)
    requires NoDup(Keys(d))
    ensures Keys(PutAll(d, w)) == KeysAfter(Keys(d), Keys(w))
    ensures NoDup(Keys(PutAll(d, w)))
    decreases |w|
  {
    if w != [] {
      PutNoDup(d, w[0].0, w[0].1);
      PutKeys(d, w[0].0, w[0].1);
      PutAllKeys(Put(d, w[0].0, w[0].1), w[1..]);
      assert Keys(w)[1..] == Keys(w[1..]);
    }
  }

  /** Assigning only keys that are present leaves the key order as it is. */
  lemma {:induction false} KeysAfterPresent(ks: seq<string>, w: seq<string>)
    requires forall i :: 0 <= i < |w| ==> w[i] in ks
    ensures KeysAfter(ks, w) == ks
    decreases |w|
  {
    if w != [] {
      assert w[0] in ks;
      KeysAfterPresent(ks, w[1..]);
    }
  }

  /** Every assigned key is a key afterwards. */
  lemma {:induction false} KeysAfterContains(ks: seq<string>, w: seq<string>, k: string)
    requires k in ks || k in w
    ensures k in KeysAfter(ks, w)
    decreases |w|
  {
    if w != [] {
      var ks' := if w[0] in ks then ks else ks + [w[0]];
      assert k in ks' || k in w[1..];
      KeysAfterContains(ks', w[1..], k);
    }
  }

  /**
   * Repeating the same run of assignments changes nothing: key order, values
   * and length are those the first run left.
   */
  lemma PutAllTwice<V>(d: Dict<V>, w: seq<(string, V)>)
    requires NoDup(Keys(d))
    ensures PutAll(PutAll(d, w), w) == PutAll(d, w)
  {
    var once := PutAll(d, w);
    PutAllKeys(d, w);
    PutAllKeys(once, w);
    forall i | 0 <= i < |w| ensures Keys(w)[i] in Keys(once) {
      KeysAfterContains(Keys(d), Keys(w), Keys(w)[i]);
    }
    KeysAfterPresent(Keys(once), Keys(w));
    forall k ensures Get(PutAll(once, w), k) == Get(once, k) {
      PutAllGet(once, w, k);
      PutAllGet(d, w, k);
    }
    Extensionality(PutAll(once, w), once);
  }
}
