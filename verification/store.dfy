/** The symbol table: a Python dict from identifier to string value. A dict
    keeps its keys in insertion order and assigning to a present key keeps
    its position, so the table is modelled as an association list whose keys
    are distinct. */
module SymbolTable {
  import opened Wrappers

  type Table = seq<(string, string)>

  /** The keys in iteration order. */
  function Keys(t: Table): (ks: seq<string>)
    ensures |ks| == |t|
    ensures forall i :: 0 <= i < |t| ==> ks[i] == t[i].0
  {
    if |t| == 0 then [] else [t[0].0] + Keys(t[1..])
  }

  predicate DistinctKeys(t: Table) {
    forall i, j :: 0 <= i < j < |t| ==> t[i].0 != t[j].0
  }

  /** Dict lookup: the value of the binding for `k`, if there is one. */
  function Get(t: Table, k: string): (r: Option<string>)
    ensures r.None? <==> k !in Keys(t)
    ensures r.Some? ==> exists i :: 0 <= i < |t| && t[i] == (k, r.value)
  {
    if |t| == 0 then None
    else if t[0].0 == k then Some(t[0].1)
    else Get(t[1..], k)
  }

  /** Dict assignment `t[k] = v`: overwrites the binding for `k` where it is,
      or adds one at the end. */
  function Put(t: Table, k: string, v: string): (r: Table)
    ensures k in Keys(t) ==> Keys(r) == Keys(t)
    ensures k !in Keys(t) ==> Keys(r) == Keys(t) + [k]
    ensures DistinctKeys(t) ==> DistinctKeys(r)
  {
    if |t| == 0 then [(k, v)]
    else if t[0].0 == k then [(k, v)] + t[1..]
    else [t[0]] + Put(t[1..], k, v)
  }

  /** After `t[k] = v`, `t[k]` is `v`. */
  lemma {:induction false} PutGet(t: Table, k: string, v: string)
    ensures Get(Put(t, k, v), k) == Some(v)
  {
    if |t| > 0 && t[0].0 != k {
      PutGet(t[1..], k, v);
      var r := Put(t, k, v);
      assert r[0] == t[0] && r[1..] == Put(t[1..], k, v);
    }
  }

  /** `t[k] = v` leaves every other key's value as it was. */
  lemma {:induction false} PutOther(t: Table, k: string, v: string, k': string)
    requires k' != k
    ensures Get(Put(t, k, v), k') == Get(t, k')
  {
    var r := Put(t, k, v);
    if |t| == 0 {
      assert r == [(k, v)];
    } else if t[0].0 == k {
      assert r[0] == (k, v) && r[1..] == t[1..];
    } else {
      PutOther(t[1..], k, v, k');
      assert r[0] == t[0] && r[1..] == Put(t[1..], k, v);
    }
  }

  /** The second assignment to a key wins. */
  lemma {:induction false} PutPut(t: Table, k: string, v: string, w: string)
    ensures Put(Put(t, k, v), k, w) == Put(t, k, w)
  {
    if |t| > 0 && t[0].0 != k {
      PutPut(t[1..], k, v, w);
      assert Put(t, k, v) == [t[0]] + Put(t[1..], k, v);
      assert (Put(t, k, v))[1..] == Put(t[1..], k, v);
    }
  }

  /** Assigning a new key appends it to the iteration order. */
  lemma {:induction false} PutNew(t: Table, k: string, v: string)
    requires k !in Keys(t)
    ensures Put(t, k, v) == t + [(k, v)]
  {
    if |t| > 0 {
      assert t[0].0 != k by { assert Keys(t)[0] == t[0].0; }
      assert k !in Keys(t[1..]) by {
        assert forall i :: 0 <= i < |t| - 1 ==> Keys(t[1..])[i] == Keys(t)[i + 1];
      }
      PutNew(t[1..], k, v);
      assert t + [(k, v)] == [t[0]] + (t[1..] + [(k, v)]);
    }
  }

  /** Assigning a key its current value changes nothing. */
  lemma {:induction false} PutSame(t: Table, k: string)
    requires Get(t, k).Some?
    ensures Put(t, k, Get(t, k).value) == t
  {
    var r := Put(t, k, Get(t, k).value);
    assert t == [t[0]] + t[1..];
    if t[0].0 != k {
      assert Get(t, k) == Get(t[1..], k);
      PutSame(t[1..], k);
      assert r == [t[0]] + Put(t[1..], k, Get(t[1..], k).value);
    } else {
      assert r == [(k, t[0].1)] + t[1..];
    }
  }
}
