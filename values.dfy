/** Values shared by both fetchers: the cells the AWS SDK hands back, the
    insertion-ordered dictionaries the fetchers build, and what a fetcher
    returns to the agent. */
module Values {

  datatype Option<T> = None | Some(value: T) {
    /** Python's `d.get(key, default)` once the lookup has been made. */
    function GetOr(default: T): T {
      match this
      case Some(v) => v
      case None => default
    }
  }

  /** A JSON-like cell. `Null` stands for Python's None and for pandas' NaN
      alike: both are "missing" to `nunique`, `to_numeric` and `sort_values`. */
  datatype Value = Str(s: string) | Num(x: real) | Bool(b: bool) | Null

  /** The sentinel both fetchers use for a missing field. */
  const NotAvailable: Value := Str("N/A")

  /** A Python dict: key/value pairs in insertion order. */
  type Row = seq<(string, Value)>

  /** What a fetcher hands back to the agent: a list of records, Python's
      None, or a plain message. */
  datatype ToolOutput = Records(rows: seq<Row>) | NoneResult | Message(text: string)

  predicate Distinct<T(==)>(s: seq<T>) {
    forall i, j :: 0 <= i < j < |s| ==> s[i] != s[j]
  }

  function Keys(r: Row): seq<string> {
    seq(|r|, i requires 0 <= i < |r| => r[i].0)
  }

  /** `d.get(k)`: the value stored under `k`, if any. */
  function Lookup(r: Row, k: string): Option<Value> {
    if r == [] then None
    else if r[0].0 == k then Some(r[0].1)
    else Lookup(r[1..], k)
  }

  /** `d[k] = v`: overwrite in place when `k` is present, append otherwise. */
  function Set(r: Row, k: string, v: Value): Row {
    if r == [] then [(k, v)]
    else if r[0].0 == k then [(k, v)] + r[1..]
    else [r[0]] + Set(r[1..], k, v)
  }

  lemma KeysTail(r: Row)
    requires r != []
    ensures Keys(r) == [r[0].0] + Keys(r[1..])
  {
  }

  /** A key is found exactly when the dict has it. */
  lemma {:induction false} LookupFound(r: Row, k: string)
    ensures Lookup(r, k).Some? <==> k in Keys(r)
  {
    if r != [] {
      KeysTail(r);
      LookupFound(r[1..], k);
    }
  }

  /** A value a dict holds is one of its pairs. */
  lemma {:induction false} LookupIn(r: Row, k: string)
    requires Lookup(r, k).Some?
    ensures (k, Lookup(r, k).value) in r
  {
    if r[0].0 != k {
      LookupIn(r[1..], k);
    }
  }

  /** Assignment keeps the key order, adding a new key at the end. */
  lemma {:induction false} SetKeys(r: Row, k: string, v: Value)
    ensures Keys(Set(r, k, v)) == if k in Keys(r) then Keys(r) else Keys(r) + [k]
  {
    if r != [] {
      KeysTail(r);
      if r[0].0 == k {
        KeysTail(Set(r, k, v));
      } else {
        SetKeys(r[1..], k, v);
        KeysTail(Set(r, k, v));
        assert Set(r, k, v)[1..] == Set(r[1..], k, v);
      }
    }
  }

  /** After `d[k] = v`, `d[k]` is `v` and every other key reads as before. */
  lemma {:induction false} SetLookup(r: Row, k: string, v: Value, k': string)
    ensures Lookup(Set(r, k, v), k') == if k' == k then Some(v) else Lookup(r, k')
  {
    if r != [] && r[0].0 != k {
      SetLookup(r[1..], k, v, k');
      assert Set(r, k, v)[1..] == Set(r[1..], k, v);
    } else if r != [] {
      assert Set(r, k, v)[1..] == r[1..];
    }
  }

  /** Assigning into a dict never creates a second entry for a key. */
  lemma SetKeepsKeysDistinct(r: Row, k: string, v: Value)
    requires Distinct(Keys(r))
    ensures Distinct(Keys(Set(r, k, v)))
  {
    SetKeys(r, k, v);
    var ks := Keys(r);
    if k !in ks {
      forall i, j | 0 <= i < j < |ks| + 1 ensures (ks + [k])[i] != (ks + [k])[j] {
        if j == |ks| { assert ks[i] in ks; }
      }
    }
  }

  /** In a dict with distinct keys, looking up the i-th key finds the i-th value. */
  lemma {:induction false} LookupAt(r: Row, i: nat)
    requires Distinct(Keys(r)) && i < |r|
    ensures Lookup(r, r[i].0) == Some(r[i].1)
  {
    if i > 0 {
      KeysTail(r);
      assert r[0].0 != r[i].0 by { assert Keys(r)[0] != Keys(r)[i]; }
      assert r[1..][i - 1] == r[i];
      assert Keys(r[1..]) == Keys(r)[1..];
      LookupAt(r[1..], i - 1);
    }
  }
}
