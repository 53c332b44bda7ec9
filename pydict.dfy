/**
  A Python dict as the scraper uses it: keys kept in insertion order, and
  `d[k] = v` on a key already present replacing its value where it stands.
 */
module PyDict {
  import opened Wrappers

  type Dict = seq<(string, string)>

  function Keys(d: Dict): (ks: seq<string>)
    ensures |ks| == |d| && forall i :: 0 <= i < |d| ==> ks[i] == d[i].0
  {
    if d == [] then [] else [d[0].0] + Keys(d[1..])
  }

  predicate Distinct(ks: seq<string>) {
    forall i, j :: 0 <= i < j < |ks| ==> ks[i] != ks[j]
  }

  /** d.get(k): the value stored under `k`, if any. */
  function Get(d: Dict, k: string): (r: Option<string>)
    ensures r.None? <==> k !in Keys(d)
  {
    if d == [] then None else if d[0].0 == k then Some(d[0].1) else Get(d[1..], k)
  }

  /** `d[k] = v` on the insertion-ordered dict; `PutSpec` states what it does. */
  function Put(d: Dict, k: string, v: string): Dict {
    if d == [] then [(k, v)]
    else if d[0].0 == k then [(k, v)] + d[1..]
    else [d[0]] + Put(d[1..], k, v)
  }

  /**
    After `d[k] = v`, `k` holds `v`, every other key holds what it held, and
    `k` is appended to the key order only if it was not there before.
   */
  lemma PutSpec(d: Dict, k: string, v: string)
    ensures Get(Put(d, k, v), k) == Some(v)
    ensures forall j :: j != k ==> Get(Put(d, k, v), j) == Get(d, j)
    ensures Keys(Put(d, k, v)) == if k in Keys(d) then Keys(d) else Keys(d) + [k]
  {
    forall j | j != k ensures Get(Put(d, k, v), j) == Get(d, j) {
      PutOther(d, k, v, j);
    }
    PutGet(d, k, v);
    PutKeys(d, k, v);
  }

  lemma {:induction false} PutGet(d: Dict, k: string, v: string)
    ensures Get(Put(d, k, v), k) == Some(v)
  {
    if d != [] && d[0].0 != k {
      PutGet(d[1..], k, v);
      ConsGet(d[0], Put(d[1..], k, v));
    }
  }

  lemma {:induction false} PutOther(d: Dict, k: string, v: string, j: string)
    requires j != k
    ensures Get(Put(d, k, v), j) == Get(d, j)
  {
    if d != [] {
      if d[0].0 == k {
        ConsGet((k, v), d[1..]);
      } else {
        PutOther(d[1..], k, v, j);
        ConsGet(d[0], Put(d[1..], k, v));
      }
    }
  }

  lemma {:induction false} PutKeys(d: Dict, k: string, v: string)
    ensures Keys(Put(d, k, v)) == if k in Keys(d) then Keys(d) else Keys(d) + [k]
  {
    if d != [] {
      assert d == [d[0]] + d[1..];
      ConsKeys(d[0], d[1..]);
      if d[0].0 == k {
        ConsKeys((k, v), d[1..]);
      } else {
        PutKeys(d[1..], k, v);
        ConsKeys(d[0], Put(d[1..], k, v));
        assert k in Keys(d) <==> k in Keys(d[1..]);
        if k !in Keys(d[1..]) {
          assert [d[0].0] + (Keys(d[1..]) + [k]) == ([d[0].0] + Keys(d[1..])) + [k];
        }
      }
    }
  }

  lemma ConsKeys(x: (string, string), d: Dict)
    ensures Keys([x] + d) == [x.0] + Keys(d)
  {
    assert ([x] + d)[1..] == d;
  }

  lemma ConsGet(x: (string, string), d: Dict)
    ensures forall j :: Get([x] + d, j) == if x.0 == j then Some(x.1) else Get(d, j)
  {
    assert ([x] + d)[1..] == d;
  }

  /** Assignment never makes a key appear twice. */
  lemma PutDistinct(d: Dict, k: string, v: string)
    requires Distinct(Keys(d))
    ensures Distinct(Keys(Put(d, k, v)))
  {
    PutSpec(d, k, v);
  }

  /** Two assignments to one key leave only the later value, in the same place. */
  lemma {:induction false} PutPut(d: Dict, k: string, v1: string, v2: string)
    ensures Put(Put(d, k, v1), k, v2) == Put(d, k, v2)
  {
    if d != [] && d[0].0 != k {
      PutPut(d[1..], k, v1, v2);
    }
  }

  /** The dict holding f(k) under each key of `ks`, in the order of `ks`. */
  function FromKeys(ks: seq<string>, f: string -> string): (d: Dict)
    ensures Keys(d) == ks
    ensures forall i :: 0 <= i < |ks| ==> d[i] == (ks[i], f(ks[i]))
  {
    if ks == [] then [] else [(ks[0], f(ks[0]))] + FromKeys(ks[1..], f)
  }

  /** Building from the same keys with functions that agree on them gives the same dict. */
  lemma {:induction false} FromKeysAgree(ks: seq<string>, f: string -> string, g: string -> string)
    requires forall k :: k in ks ==> f(k) == g(k)
    ensures FromKeys(ks, f) == FromKeys(ks, g)
  {
    if ks != [] {
      FromKeysAgree(ks[1..], f, g);
    }
  }

  /** Changing the value of one present key is a `Put` on the built dict. */
  lemma {:induction false} FromKeysPut(ks: seq<string>, f: string -> string, g: string -> string, k: string)
    requires Distinct(ks) && k in ks
    requires forall j :: j in ks && j != k ==> f(j) == g(j)
    ensures FromKeys(ks, g) == Put(FromKeys(ks, f), k, g(k))
  {
    if ks[0] == k {
      assert forall j :: j in ks[1..] ==> j != k by {
        forall j | j in ks[1..] ensures j != k {
          var n :| 0 <= n < |ks[1..]| && ks[1..][n] == j;
          assert ks[n + 1] == j;
        }
      }
      FromKeysAgree(ks[1..], f, g);
    } else {
      FromKeysPut(ks[1..], f, g, k);
    }
  }

  /** A new key set with `Put` lands at the end of the built dict. */
  lemma {:induction false} FromKeysAppend(ks: seq<string>, f: string -> string, g: string -> string, k: string)
    requires k !in ks
    requires forall j :: j in ks ==> f(j) == g(j)
    ensures FromKeys(ks + [k], g) == Put(FromKeys(ks, f), k, g(k))
  {
    if ks == [] {
    } else {
      assert (ks + [k])[1..] == ks[1..] + [k];
      FromKeysAppend(ks[1..], f, g, k);
    }
  }
}
