/**
 * Insertion-ordered string-keyed dictionaries (Python `dict`), kept as
 * association lists so that the order in which keys were first inserted is
 * observable, as it is for Python dictionaries.
 */
module Assoc {
  import opened Wrappers

  function Keys<V(==)>(e: seq<(string, V)>): (r: seq<string>)
    ensures |r| == |e|
    ensures forall i :: 0 <= i < |e| ==> r[i] == e[i].0
  {
    seq(|e|, i requires 0 <= i < |e| => e[i].0)
  }

  predicate Distinct(ks: seq<string>) {
    forall i, j :: 0 <= i < j < |ks| ==> ks[i] != ks[j]
  }

  /** A dictionary never holds the same key twice. */
  predicate WellFormed<V(==)>(e: seq<(string, V)>) {
    Distinct(Keys(e))
  }

  /** `d.get(k)`: the value stored under `k`, if any. */
  function Get<V(==)>(e: seq<(string, V)>, k: string): (r: Option<V>)
    ensures r.None? <==> k !in Keys(e)
  {
    if |e| == 0 then None
    else if e[0].0 == k then Some(e[0].1)
    else
      assert Keys(e) == [e[0].0] + Keys(e[1..]);
      Get(e[1..], k)
  }

  /** In a well-formed dictionary the entry at position `i` is what `Get` finds. */
  lemma {:induction false} GetAt<V>(e: seq<(string, V)>, i: int)
    requires WellFormed(e) && 0 <= i < |e|
    ensures Get(e, e[i].0) == Some(e[i].1)
  {
    if i > 0 {
      assert Keys(e)[0] != Keys(e)[i];
      assert Keys(e[1..]) == Keys(e)[1..];
      GetAt(e[1..], i - 1);
    }
  }

  /** Looking a key up in a dictionary whose first entry is `(k, v)`. */
  lemma GetCons<V>(k: string, v: V, rest: seq<(string, V)>, key: string)
    ensures Get([(k, v)] + rest, key) == if k == key then Some(v) else Get(rest, key)
  {
    assert ([(k, v)] + rest)[1..] == rest;
  }

  /** Looking a key up in a concatenation finds the first part's entry before the second's. */
  lemma {:induction false} GetAppend<V>(a: seq<(string, V)>, b: seq<(string, V)>, k: string)
    ensures Get(a + b, k) == if k in Keys(a) then Get(a, k) else Get(b, k)
  {
    if |a| > 0 {
      assert (a + b)[0] == a[0];
      assert (a + b)[1..] == a[1..] + b;
      assert Keys(a) == [a[0].0] + Keys(a[1..]);
      GetAppend(a[1..], b, k);
    } else {
      assert a + b == b;
    }
  }

  /**
   * `d[k] = v`: an existing key keeps its position and takes the new value,
   * a new key is appended at the end.
   */
  function Put<V(==)>(e: seq<(string, V)>, k: string, v: V): (r: seq<(string, V)>)
    ensures |r| == if k in Keys(e) then |e| else |e| + 1
  {
    if |e| == 0 then [(k, v)]
    else if e[0].0 == k then [(k, v)] + e[1..]
    else
      assert Keys(e) == [e[0].0] + Keys(e[1..]);
      [e[0]] + Put(e[1..], k, v)
  }

  /** After `d[k] = v`, `d[k]` is `v` and every other key reads as before. */
  lemma {:induction false} PutGet<V>(e: seq<(string, V)>, k: string, v: V, k': string)
    ensures Get(Put(e, k, v), k') == if k' == k then Some(v) else Get(e, k')
  {
    if |e| > 0 && e[0].0 != k {
      PutGet(e[1..], k, v, k');
      assert ([e[0]] + Put(e[1..], k, v))[1..] == Put(e[1..], k, v);
    }
  }

  /** `Put` sets its own key and leaves every other key's lookup as it was. */
  lemma PutFrame<V>(e: seq<(string, V)>, k: string, v: V)
    ensures Get(Put(e, k, v), k) == Some(v)
    ensures forall k' :: k' != k ==> Get(Put(e, k, v), k') == Get(e, k')
  {
    forall k' {
      PutGet(e, k, v, k');
    }
  }

  /** `d[k] = v` keeps the key order; a new key goes last. */
  lemma {:induction false} PutKeys<V>(e: seq<(string, V)>, k: string, v: V)
    ensures k in Keys(e) ==> Keys(Put(e, k, v)) == Keys(e)
    ensures k !in Keys(e) ==> Keys(Put(e, k, v)) == Keys(e) + [k]
  {
    if |e| > 0 {
      KeysCons(e[0], e[1..]);
      assert [e[0]] + e[1..] == e;
      if e[0].0 != k {
        PutKeys(e[1..], k, v);
        KeysCons(e[0], Put(e[1..], k, v));
        if k !in Keys(e) {
          assert [e[0].0] + (Keys(e[1..]) + [k]) == Keys(e) + [k];
        }
      } else {
        KeysCons((k, v), e[1..]);
      }
    }
  }

  lemma KeysCons<V>(x: (string, V), rest: seq<(string, V)>)
    ensures Keys([x] + rest) == [x.0] + Keys(rest)
  {
  }

  /** Assignment keeps a dictionary free of duplicate keys. */
  lemma PutWellFormed<V>(e: seq<(string, V)>, k: string, v: V)
    requires WellFormed(e)
    ensures WellFormed(Put(e, k, v))
  {
    PutKeys(e, k, v);
  }

  /** `d.pop(k, None)`: the first (in a dictionary, the only) entry for `k` goes. */
  function Remove<V(==)>(e: seq<(string, V)>, k: string): (r: seq<(string, V)>)
    ensures |r| == if k in Keys(e) then |e| - 1 else |e|
    ensures k !in Keys(e) ==> r == e
  {
    if |e| == 0 then e
    else if e[0].0 == k then e[1..]
    else
      assert Keys(e) == [e[0].0] + Keys(e[1..]);
      [e[0]] + Remove(e[1..], k)
  }

  /** After `d.pop(k)`, every other key reads as before. */
  lemma {:induction false} RemoveGetOther<V>(e: seq<(string, V)>, k: string, k': string)
    requires k' != k
    ensures Get(Remove(e, k), k') == Get(e, k')
  {
    if |e| > 0 && e[0].0 != k {
      RemoveGetOther(e[1..], k, k');
      assert ([e[0]] + Remove(e[1..], k))[1..] == Remove(e[1..], k);
    }
  }

  /** In a dictionary, `d.pop(k)` leaves no entry for `k` behind. */
  lemma {:induction false} RemoveGone<V>(e: seq<(string, V)>, k: string)
    requires WellFormed(e)
    ensures Get(Remove(e, k), k).None?
  {
    if |e| > 0 {
      assert Keys(e[1..]) == Keys(e)[1..];
      if e[0].0 != k {
        RemoveGone(e[1..], k);
        assert ([e[0]] + Remove(e[1..], k))[1..] == Remove(e[1..], k);
      }
    }
  }
}
