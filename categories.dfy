/**
 * The dashboard's category lists (App.tsx, assetCategories and
 * liabilityCategories): the names used by any month in a bucket, without
 * duplicates, in the order of Array.prototype.sort.
 */
module Categories {
  import opened Records

  // ---------------------------------------------------------------------
  // The order sort() puts strings in
  // ---------------------------------------------------------------------

  /** `a` sorts before `b`: compared character by character, a proper prefix first. */
  predicate Below(a: string, b: string) {
    if a == [] then b != []
    else if b == [] then false
    else if a[0] != b[0] then a[0] < b[0]
    else Below(a[1..], b[1..])
  }

  lemma {:induction false} BelowIrreflexive(a: string)
    ensures !Below(a, a)
  {
    if a != [] {
      BelowIrreflexive(a[1..]);
    }
  }

  lemma {:induction false} BelowTransitive(a: string, b: string, c: string)
    requires Below(a, b) && Below(b, c)
    ensures Below(a, c)
  {
    if a != [] && b != [] && c != [] && a[0] == b[0] && b[0] == c[0] {
      BelowTransitive(a[1..], b[1..], c[1..]);
    }
  }

  lemma {:induction false} BelowTotal(a: string, b: string)
    requires a != b
    ensures Below(a, b) || Below(b, a)
  {
    if a != [] && b != [] && a[0] == b[0] {
      assert a == [a[0]] + a[1..] && b == [b[0]] + b[1..];
      BelowTotal(a[1..], b[1..]);
    }
  }

  /** Sorted with no name twice. */
  predicate StrictlySorted(s: seq<string>) {
    forall i, j :: 0 <= i < j < |s| ==> Below(s[i], s[j])
  }

  /** A strictly sorted list has no name twice. */
  lemma SortedDistinct(s: seq<string>, i: int, j: int)
    requires StrictlySorted(s) && 0 <= i < j < |s|
    ensures s[i] != s[j]
  {
    BelowIrreflexive(s[i]);
  }

  /**
   * A strictly sorted list is determined by its names: sorting the set's
   * names gives a list that does not depend on the order the names were
   * added to the set.
   */
  lemma {:induction false} SortedUnique(a: seq<string>, b: seq<string>)
    requires StrictlySorted(a) && StrictlySorted(b)
    requires forall x :: x in a <==> x in b
    ensures a == b
  {
    assert a != [] ==> a[0] in b;
    assert b != [] ==> b[0] in a;
    if a != [] && b != [] {
      if a[0] != b[0] {
        assert a[0] in a && b[0] in b;
        var k :| 0 <= k < |b| && b[k] == a[0];
        var m :| 0 <= m < |a| && a[m] == b[0];
        assert Below(b[0], a[0]);
        assert Below(a[0], b[0]);
        BelowTransitive(a[0], b[0], a[0]);
        BelowIrreflexive(a[0]);
        assert false;
      }
      forall x ensures x in a[1..] <==> x in b[1..] {
        if x in a[1..] {
          var i :| 1 <= i < |a| && a[i] == x;
          SortedDistinct(a, 0, i);
          assert x in b && x != b[0];
        }
        if x in b[1..] {
          var i :| 1 <= i < |b| && b[i] == x;
          SortedDistinct(b, 0, i);
          assert x in a && x != a[0];
        }
      }
      SortedUnique(a[1..], b[1..]);
      assert a == [a[0]] + a[1..] && b == [b[0]] + b[1..];
    }
  }

  // ---------------------------------------------------------------------
  // Collecting the names
  // ---------------------------------------------------------------------

  /** Adding a name to a set kept as its sorted list. */
  function InsertSorted(s: seq<string>, x: string): (r: seq<string>)
    requires StrictlySorted(s)
    ensures StrictlySorted(r)
    ensures forall y :: y in r <==> y in s || y == x
  {
    if s == [] then [x]
    else if s[0] == x then s
    else if Below(x, s[0]) then
      forall j | 0 <= j < |s| ensures Below(x, s[j]) {
        if j > 0 { BelowTransitive(x, s[0], s[j]); }
      }
      [x] + s
    else
      BelowTotal(x, s[0]);
      var rest := InsertSorted(s[1..], x);
      assert forall y :: y in rest ==> Below(s[0], y) by {
        forall y | y in rest ensures Below(s[0], y) {
          if y != x {
            var j :| 1 <= j < |s| && s[j] == y;
          }
        }
      }
      var r := [s[0]] + rest;
      assert forall i, j :: 0 < i < j < |r| ==> Below(r[i], r[j]) by {
        forall i, j | 0 < i < j < |r| ensures Below(r[i], r[j]) {
          assert r[i] == rest[i - 1] && r[j] == rest[j - 1];
        }
      }
      assert forall j :: 0 < j < |r| ==> Below(r[0], r[j]) by {
        forall j | 0 < j < |r| ensures Below(r[0], r[j]) {
          assert r[j] == rest[j - 1];
          assert r[j] in rest;
        }
      }
      assert forall y :: y in s <==> y == s[0] || y in s[1..] by {
        assert s == [s[0]] + s[1..];
      }
      r
  }

  /** Adds every property name of a bucket, in the bucket's order, to the sorted set. */
  function InsertAll(acc: seq<string>, d: seq<Entry<real>>): (r: seq<string>)
    requires StrictlySorted(acc)
    ensures StrictlySorted(r)
  {
    if d == [] then acc else InsertSorted(InsertAll(acc, d[..|d| - 1]), d[|d| - 1].key)
  }

  lemma {:induction false} InsertAllNames(acc: seq<string>, d: seq<Entry<real>>)
    requires StrictlySorted(acc)
    ensures forall y :: y in InsertAll(acc, d) <==> y in acc || y in Keys(d)
  {
    if d != [] {
      var init := d[..|d| - 1];
      InsertAllNames(acc, init);
      assert Keys(d) == Keys(init) + {d[|d| - 1].key} by {
        forall y | y in Keys(d) ensures y in Keys(init) + {d[|d| - 1].key} {
          var i :| 0 <= i < |d| && d[i].key == y;
          if i < |d| - 1 { assert init[i].key == y; }
        }
        forall y | y in Keys(init) ensures y in Keys(d) {
          var i :| 0 <= i < |init| && init[i].key == y;
          assert d[i].key == y;
        }
      }
    }
  }

  /** The names used by any of the months in bucket `kind`; a month without the bucket adds none. */
  function AllKeys(data: seq<Month>, kind: Kind): set<string> {
    if data == [] then {} else AllKeys(data[..|data| - 1], kind) + KeysOf(data[|data| - 1], kind)
  }

  lemma {:induction false} AllKeysMeaning(data: seq<Month>, kind: Kind, c: string)
    ensures c in AllKeys(data, kind) <==> exists i :: 0 <= i < |data| && c in KeysOf(data[i], kind)
  {
    if data != [] {
      var init := data[..|data| - 1];
      AllKeysMeaning(init, kind, c);
      if c in AllKeys(init, kind) {
        var i :| 0 <= i < |init| && c in KeysOf(init[i], kind);
        assert data[i] == init[i];
      }
      if exists i :: 0 <= i < |data| && c in KeysOf(data[i], kind) {
        var i :| 0 <= i < |data| && c in KeysOf(data[i], kind);
        if i < |data| - 1 { assert init[i] == data[i]; }
      }
    }
  }

  /** The category list of bucket `kind` after the months `data` have been visited. */
  function CategoryList(data: seq<Month>, kind: Kind): (r: seq<string>)
    ensures StrictlySorted(r)
  {
    if data == [] then [] else InsertAll(CategoryList(data[..|data| - 1], kind), BucketOrEmpty(data[|data| - 1], kind))
  }

  /**
   * The category list is strictly sorted and holds exactly the names that
   * some month uses in that bucket; a month without the bucket adds none.
   */
  lemma {:induction false} CategoryListNames(data: seq<Month>, kind: Kind)
    ensures StrictlySorted(CategoryList(data, kind))
    ensures forall c :: c in CategoryList(data, kind) <==> c in AllKeys(data, kind)
  {
    if data != [] {
      CategoryListNames(data[..|data| - 1], kind);
      InsertAllNames(CategoryList(data[..|data| - 1], kind), BucketOrEmpty(data[|data| - 1], kind));
    }
  }

  /** Any strictly sorted list of the names in use is the category list. */
  lemma CategoryListIsSortedUnion(data: seq<Month>, kind: Kind, names: seq<string>)
    requires StrictlySorted(names)
    requires forall c :: c in names <==> exists i :: 0 <= i < |data| && c in KeysOf(data[i], kind)
    ensures names == CategoryList(data, kind)
  {
    CategoryListNames(data, kind);
    forall c ensures c in names <==> c in CategoryList(data, kind) {
      AllKeysMeaning(data, kind, c);
    }
    SortedUnique(names, CategoryList(data, kind));
  }

  /**
   * The source's pass: each month adds its asset names to one set and its
   * liability names to another; each set is then listed in sorted order.
   */
  method DeriveCategories(data: seq<Month>) returns (assetCategories: seq<string>, liabilityCategories: seq<string>)
    ensures assetCategories == CategoryList(data, Assets)
    ensures liabilityCategories == CategoryList(data, Liabilities)
  {
    assetCategories, liabilityCategories := [], [];
    for i := 0 to |data|
      invariant assetCategories == CategoryList(data[..i], Assets)
      invariant liabilityCategories == CategoryList(data[..i], Liabilities)
    {
      assert data[..i + 1][..i] == data[..i];
      assetCategories := AddNames(assetCategories, BucketOrEmpty(data[i], Assets));
      liabilityCategories := AddNames(liabilityCategories, BucketOrEmpty(data[i], Liabilities));
    }
    assert data[..|data|] == data;
  }

  /** The inner forEach: adds each key of one bucket, in key order. */
  method AddNames(acc: seq<string>, d: seq<Entry<real>>) returns (r: seq<string>)
    requires StrictlySorted(acc)
    ensures r == InsertAll(acc, d)
  {
    r := acc;
    for j := 0 to |d|
      invariant StrictlySorted(r)
      invariant r == InsertAll(acc, d[..j])
    {
      assert d[..j + 1][..j] == d[..j];
      r := InsertSorted(r, d[j].key);
    }
    assert d[..|d|] == d;
  }
}
