/**
 * Python dictionaries with string keys, as the wrapper uses them: a `dict`
 * remembers insertion order, so it is modelled as the sequence of its items.
 */
module Dicts {
  import opened Wrappers

  /** The items of a Python `dict`, in insertion order. */
  type Dict<V> = seq<(string, V)>

  function Keys<V>(d: Dict<V>): set<string> {
    set i | 0 <= i < |d| :: d[i].0
  }

  /** Every key occurs once, as in any real `dict`. */
  predicate DistinctKeys<V>(d: Dict<V>) {
    forall i, j | 0 <= i < j < |d| :: d[i].0 != d[j].0
  }

  lemma KeysCons<V>(x: (string, V), rest: Dict<V>)
    ensures Keys([x] + rest) == {x.0} + Keys(rest)
  {
    var d := [x] + rest;
    forall q | q in Keys(d) ensures q in {x.0} + Keys(rest) {
      var i :| 0 <= i < |d| && d[i].0 == q;
      if i > 0 { assert rest[i - 1].0 == q; }
    }
    forall q | q in Keys(rest) ensures q in Keys(d) {
      var i :| 0 <= i < |rest| && rest[i].0 == q;
      assert d[i + 1].0 == q;
    }
    assert d[0].0 == x.0;
  }

  /** `d.get(k)`. */
  function Lookup<V>(d: Dict<V>, k: string): (r: Option<V>)
    ensures r.Some? <==> k in Keys(d)
  {
    if d == [] then None
    else if d[0].0 == k then Some(d[0].1)
    else
      KeysCons(d[0], d[1..]);
      assert [d[0]] + d[1..] == d;
      Lookup(d[1..], k)
  }

  /**
   * `d[k] = v`: an existing key keeps its place and takes the new value;
   * a new key is appended at the end.
   */
  function Put<V>(d: Dict<V>, k: string, v: V): Dict<V> {
    if d == [] then [(k, v)]
    else if d[0].0 == k then [(k, v)] + d[1..]
    else [d[0]] + Put(d[1..], k, v)
  }

  /** After `d[k] = v` the keys are those of `d` and `k`, and the size grows only for a new key. */
  lemma {:induction false} PutKeys<V>(d: Dict<V>, k: string, v: V)
    ensures Keys(Put(d, k, v)) == Keys(d) + {k}
    ensures |Put(d, k, v)| == if k in Keys(d) then |d| else |d| + 1
  {
    if d == [] {
      KeysCons((k, v), d);
      assert [(k, v)] + d == [(k, v)];
    } else {
      KeysCons(d[0], d[1..]);
      assert [d[0]] + d[1..] == d;
      if d[0].0 == k {
        KeysCons((k, v), d[1..]);
      } else {
        PutKeys(d[1..], k, v);
        KeysCons(d[0], Put(d[1..], k, v));
      }
    }
  }

  /** After `d[k] = v`, `k` looks up `v` and every other key looks up as before. */
  lemma {:induction false} PutLookup<V>(d: Dict<V>, k: string, v: V, q: string)
    ensures Lookup(Put(d, k, v), q) == if q == k then Some(v) else Lookup(d, q)
  {
    if d != [] && d[0].0 != k {
      var r := Put(d, k, v);
      assert r[1..] == Put(d[1..], k, v);
      PutLookup(d[1..], k, v, q);
    } else if d != [] {
      assert Put(d, k, v)[1..] == d[1..];
    }
  }

  /** Storing a new key appends it. */
  lemma {:induction false} PutNewKey<V>(d: Dict<V>, k: string, v: V)
    requires k !in Keys(d)
    ensures Put(d, k, v) == d + [(k, v)]
  {
    if d != [] {
      assert d[0].0 in Keys(d);
      KeysCons(d[0], d[1..]);
      assert [d[0]] + d[1..] == d;
      PutNewKey(d[1..], k, v);
      assert [d[0]] + (d[1..] + [(k, v)]) == d + [(k, v)];
    }
  }

  /** Every item after `d[k] = v` is the new one or was already there. */
  lemma {:induction false} PutItems<V>(d: Dict<V>, k: string, v: V)
    ensures forall p | p in Put(d, k, v) :: p == (k, v) || p in d
  {
    if d != [] && d[0].0 != k {
      PutItems(d[1..], k, v);
      assert forall p | p in d[1..] :: p in d;
    } else if d != [] {
      assert forall p | p in d[1..] :: p in d;
    }
  }

  /** `d[k] = v` keeps the keys distinct. */
  lemma {:induction false} PutDistinct<V>(d: Dict<V>, k: string, v: V)
    requires DistinctKeys(d)
    ensures DistinctKeys(Put(d, k, v))
  {
    if d != [] {
      var r := Put(d, k, v);
      assert DistinctKeys(d[1..]) by {
        forall i, j | 0 <= i < j < |d[1..]| ensures d[1..][i].0 != d[1..][j].0 {
          assert d[1..][i] == d[i + 1] && d[1..][j] == d[j + 1];
        }
      }
      KeysCons(d[0], d[1..]);
      assert [d[0]] + d[1..] == d;
      if d[0].0 == k {
        assert forall i | 0 <= i < |r| :: r[i].0 == d[i].0;
      } else {
        var rest := Put(d[1..], k, v);
        PutDistinct(d[1..], k, v);
        PutKeys(d[1..], k, v);
        KeysCons(d[0], rest);
        assert d[0].0 !in Keys(rest);
        forall i, j | 0 <= i < j < |r| ensures r[i].0 != r[j].0 {
          assert r[j] == rest[j - 1];
          if i > 0 {
            assert r[i] == rest[i - 1];
          } else {
            assert rest[j - 1].0 in Keys(rest);
          }
        }
      }
    }
  }

  /** Dropping the first item keeps the keys distinct, and its key is not among the rest. */
  lemma DistinctKeysTail<V>(d: Dict<V>)
    requires d != []
    ensures DistinctKeys(d) ==> DistinctKeys(d[1..]) && d[0].0 !in Keys(d[1..])
  {
    if DistinctKeys(d) {
      DistinctTail(d);
    }
  }

  lemma DistinctTail<V>(d: Dict<V>)
    requires DistinctKeys(d) && d != []
    ensures DistinctKeys(d[1..]) && d[0].0 !in Keys(d[1..])
  {
    forall i, j | 0 <= i < j < |d[1..]| ensures d[1..][i].0 != d[1..][j].0 {
      assert d[1..][i] == d[i + 1] && d[1..][j] == d[j + 1];
    }
    forall i | 0 <= i < |d[1..]| ensures d[1..][i].0 != d[0].0 {
      assert d[1..][i] == d[i + 1];
    }
  }

  /** A dictionary has as many items as keys. */
  lemma {:induction false} DistinctKeysCount<V>(d: Dict<V>)
    requires DistinctKeys(d)
    ensures |Keys(d)| == |d|
  {
    if d != [] {
      KeysCons(d[0], d[1..]);
      assert [d[0]] + d[1..] == d;
      assert DistinctKeys(d[1..]) by {
        forall i, j | 0 <= i < j < |d[1..]| ensures d[1..][i].0 != d[1..][j].0 {
          assert d[1..][i] == d[i + 1] && d[1..][j] == d[j + 1];
        }
      }
      DistinctKeysCount(d[1..]);
      assert d[0].0 !in Keys(d[1..]);
    }
  }

  /** `sum(d.values())`. */
  function Sum(d: Dict<int>): int {
    if d == [] then 0 else d[0].1 + Sum(d[1..])
  }

  /** A dictionary whose values all equal `c` sums to `c` times its size. */
  lemma {:induction false} SumConstant(d: Dict<int>, c: int)
    requires forall i | 0 <= i < |d| :: d[i].1 == c
    ensures Sum(d) == |d| * c
  {
    if d != [] {
      SumConstant(d[1..], c);
      calc {
        Sum(d);
        c + (|d| - 1) * c;
        |d| * c;
      }
    }
  }
}
