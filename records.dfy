/**
 * The record shape shared by the server and the dashboard (types.ts): a month
 * is a date label and two plain objects, `assets` and `liabilities`, from a
 * category name to an amount.
 */
module Records {
  import opened Wrappers

  /** Which bucket of a month a request addresses: 'assets' or 'liabilities'. */
  datatype Kind = Assets | Liabilities {
    function Other(): (o: Kind)
      ensures o != this
    {
      if this == Assets then Liabilities else Assets
    }
  }

  /** One own property of a plain JavaScript object. */
  datatype Entry<V> = Entry(key: string, value: V)

  predicate DistinctKeys<V>(s: seq<Entry<V>>) {
    forall i, j :: 0 <= i < j < |s| ==> s[i].key != s[j].key
  }

  /**
   * A plain JavaScript object with string keys: its own properties in
   * enumeration order, each key at most once.
   */
  type Dict<V> = s: seq<Entry<V>> | DistinctKeys(s)

  /** The property names of `d`, as a set. */
  function Keys<V>(d: seq<Entry<V>>): set<string> {
    set i | 0 <= i < |d| :: d[i].key
  }

  /** The keys and the distinctness of a property list with one more property in front. */
  lemma KeysCons<V>(x: Entry<V>, r: seq<Entry<V>>)
    ensures Keys([x] + r) == {x.key} + Keys(r)
    ensures DistinctKeys([x] + r) <==> x.key !in Keys(r) && DistinctKeys(r)
  {
    var s := [x] + r;
    forall k | k in Keys(s) ensures k in {x.key} + Keys(r) {
      var i :| 0 <= i < |s| && s[i].key == k;
      if i > 0 { assert r[i - 1].key == k; }
    }
    forall k | k in Keys(r) ensures k in Keys(s) {
      var i :| 0 <= i < |r| && r[i].key == k;
      assert s[i + 1].key == k;
    }
    assert s[0].key == x.key;
    if DistinctKeys(s) {
      forall i | 0 <= i < |r| ensures r[i].key != x.key { assert s[i + 1] == r[i]; }
      forall i, j | 0 <= i < j < |r| ensures r[i].key != r[j].key { assert s[i + 1] == r[i] && s[j + 1] == r[j]; }
    }
    if x.key !in Keys(r) && DistinctKeys(r) {
      forall i, j | 0 <= i < j < |s| ensures s[i].key != s[j].key {
        if i == 0 { assert s[j].key == r[j - 1].key; }
      }
    }
  }

  /** Property lookup: the value stored under `k`, or None when `d` has no such property. */
  function Get<V(==)>(d: Dict<V>, k: string): (r: Option<V>)
    ensures r.None? <==> k !in Keys(d)
  {
    if d == [] then None
    else if d[0].key == k then Some(d[0].value)
    else Get(d[1..], k)
  }

  /**
   * Property assignment: a property that exists keeps its place in the enumeration
   * order, a new one goes last.
   */
  function Assign<V(==)>(d: Dict<V>, k: string, v: V): (r: Dict<V>)
    ensures Keys(r) == Keys(d) + {k}
    ensures k in Keys(d) ==> |r| == |d| && forall i :: 0 <= i < |d| ==> r[i].key == d[i].key
    ensures k !in Keys(d) ==> r == d + [Entry(k, v)]
  {
    if d == [] then
      KeysCons(Entry(k, v), []);
      [Entry(k, v)]
    else
      Uncons(d);
      if d[0].key == k then
        AssignFront(d, v);
        [Entry(k, v)] + d[1..]
      else
        var rest := Assign(d[1..], k, v);
        AssignBehind(d, k, v, rest);
        [d[0]] + rest
  }

  /** A property list with distinct keys is its first entry in front of a tail with distinct keys that lacks its key. */
  lemma Uncons<V>(d: seq<Entry<V>>)
    requires d != [] && DistinctKeys(d)
    ensures DistinctKeys(d[1..]) && d[0].key !in Keys(d[1..]) && Keys(d) == {d[0].key} + Keys(d[1..])
  {
    assert d == [d[0]] + d[1..];
    KeysCons(d[0], d[1..]);
  }

  /** Assigning to the key of the first entry replaces that entry in place. */
  lemma AssignFront<V>(d: seq<Entry<V>>, v: V)
    requires d != [] && DistinctKeys(d)
    ensures var r := [Entry(d[0].key, v)] + d[1..];
      && DistinctKeys(r) && Keys(r) == Keys(d) && |r| == |d|
      && forall i :: 0 <= i < |d| ==> r[i].key == d[i].key
  {
    Uncons(d);
    KeysCons(Entry(d[0].key, v), d[1..]);
  }

  /** Assigning behind a first entry with another key keeps that entry in front. */
  lemma AssignBehind<V>(d: seq<Entry<V>>, k: string, v: V, rest: seq<Entry<V>>)
    requires d != [] && d[0].key != k && DistinctKeys(d) && DistinctKeys(rest)
    requires Keys(rest) == Keys(d[1..]) + {k}
    requires k in Keys(d[1..]) ==> |rest| == |d| - 1 && forall i :: 0 <= i < |d| - 1 ==> rest[i].key == d[i + 1].key
    requires k !in Keys(d[1..]) ==> rest == d[1..] + [Entry(k, v)]
    ensures var r := [d[0]] + rest;
      && DistinctKeys(r) && Keys(r) == Keys(d) + {k}
      && (k in Keys(d) ==> |r| == |d| && forall i :: 0 <= i < |d| ==> r[i].key == d[i].key)
      && (k !in Keys(d) ==> r == d + [Entry(k, v)])
  {
    assert d == [d[0]] + d[1..];
    KeysCons(d[0], d[1..]);
    KeysCons(d[0], rest);
  }

  /** After assigning `v` to `k`, reading `k` gives `v` and every other property reads as before. */
  lemma {:induction false} AssignGet<V>(d: Dict<V>, k: string, v: V, k': string)
    ensures Get(Assign(d, k, v), k') == if k' == k then Some(v) else Get(d, k')
  {
    if d != [] && d[0].key != k {
      AssignGet(d[1..], k, v, k');
      var r := Assign(d, k, v);
      assert r[1..] == Assign(d[1..], k, v);
    }
  }

  /** Property deletion: the other properties keep their order. */
  function Remove<V(==)>(d: Dict<V>, k: string): (r: Dict<V>)
    ensures Keys(r) == Keys(d) - {k}
    ensures Get(r, k) == None
    ensures forall k' :: k' != k ==> Get(r, k') == Get(d, k')
    ensures k !in Keys(d) ==> r == d
  {
    if d == [] then []
    else
      Uncons(d);
      if d[0].key == k then Remove(d[1..], k)
      else
        var rest := Remove(d[1..], k);
        KeysCons(d[0], rest);
        [d[0]] + rest
  }

  /** The position of the entry of a present key, which Remove cuts out. */
  lemma {:induction false} RemoveAt<V>(d: Dict<V>, k: string) returns (j: int)
    requires k in Keys(d)
    ensures 0 <= j < |d| && d[j].key == k && Remove(d, k) == d[..j] + d[j + 1..]
  {
    KeysCons(d[0], d[1..]);
    assert d == [d[0]] + d[1..];
    if d[0].key == k {
      j := 0;
    } else {
      var i := RemoveAt(d[1..], k);
      j := i + 1;
      CutBehind(d, i);
    }
  }

  /** Cutting entry `i` out of the tail of `d` is cutting entry `i` + 1 out of `d`. */
  lemma CutBehind<V>(d: seq<Entry<V>>, i: int)
    requires 0 <= i < |d| - 1
    ensures [d[0]] + (d[1..][..i] + d[1..][i + 1..]) == d[..i + 1] + d[i + 2..]
  {
  }

  /** Removing a key that is present takes out its one entry; the others keep their order. */
  lemma RemoveKeepsOrder<V>(d: Dict<V>, k: string)
    requires k in Keys(d)
    ensures exists j :: 0 <= j < |d| && d[j].key == k && Remove(d, k) == d[..j] + d[j + 1..]
  {
    var j := RemoveAt(d, k);
  }

  /** The sum of the values of `d`, left to right from zero, computed exactly. */
  function Sum(d: seq<Entry<real>>): real {
    if d == [] then 0.0 else d[0].value + Sum(d[1..])
  }

  /** A sum of amounts none of which is negative is not negative. */
  lemma {:induction false} SumNonNegative(d: seq<Entry<real>>)
    requires forall i :: 0 <= i < |d| ==> d[i].value >= 0.0
    ensures Sum(d) >= 0.0
  {
    if d != [] {
      assert forall i :: 0 <= i < |d[1..]| ==> d[1..][i].value == d[i + 1].value;
      SumNonNegative(d[1..]);
    }
  }

  /**
   * One monthly snapshot (MonthlyData). A bucket is None when the record has
   * no such property at all, which a baseline file may contain.
   */
  datatype Month = Month(date: string, assets: Option<Dict<real>>, liabilities: Option<Dict<real>>)

  /** The bucket `kind` of month `m`, None when the month has none. */
  function BucketOf(m: Month, kind: Kind): Option<Dict<real>> {
    match kind
    case Assets => m.assets
    case Liabilities => m.liabilities
  }

  /** The bucket `kind` of month `m`, an empty object when the month has none. */
  function BucketOrEmpty(m: Month, kind: Kind): Dict<real> {
    match BucketOf(m, kind)
    case None => []
    case Some(b) => b
  }

  /** Month `m` with bucket `kind` replaced by (or set to) `b`. */
  function WithBucket(m: Month, kind: Kind, b: Dict<real>): (r: Month)
    ensures r.date == m.date
    ensures BucketOf(r, kind) == Some(b)
    ensures BucketOf(r, kind.Other()) == BucketOf(m, kind.Other())
  {
    match kind
    case Assets => m.(assets := Some(b))
    case Liabilities => m.(liabilities := Some(b))
  }

  /** Writes cell `category` of bucket `kind` as `v`, creating the bucket when the month has none. */
  function WithCell(m: Month, kind: Kind, category: string, v: real): (r: Month)
    ensures r.date == m.date
    ensures BucketOf(r, kind).Some?
    ensures KeysOf(r, kind) == KeysOf(m, kind) + {category}
    ensures BucketOf(r, kind.Other()) == BucketOf(m, kind.Other())
  {
    WithBucket(m, kind, Assign(BucketOrEmpty(m, kind), category, v))
  }

  /** After WithCell, the cell reads `v` and every other cell of the bucket reads as before. */
  lemma WithCellGet(m: Month, kind: Kind, category: string, v: real, k: string)
    ensures Get(BucketOrEmpty(WithCell(m, kind, category, v), kind), k)
            == if k == category then Some(v) else Get(BucketOrEmpty(m, kind), k)
  {
    AssignGet(BucketOrEmpty(m, kind), category, v, k);
  }

  /** The category names of one bucket of a month; an absent bucket has none. */
  function KeysOf(m: Month, kind: Kind): set<string> {
    Keys(BucketOrEmpty(m, kind))
  }

  /** Schema consistency: every month of `s` has the same category names in bucket `kind`. */
  ghost predicate Uniform(s: seq<Month>, kind: Kind) {
    forall i, j :: 0 <= i < |s| && 0 <= j < |s| ==> KeysOf(s[i], kind) == KeysOf(s[j], kind)
  }
}
