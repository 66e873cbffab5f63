/**
 * The data the dashboard hands to its charts (App.tsx): the latest month's
 * allocation slices and the asset-composition rows, one per month.
 */
module Views {
  import opened Wrappers
  import opened Records
  import opened Metrics

  // ---------------------------------------------------------------------
  // allocationData
  // ---------------------------------------------------------------------

  /** One slice of an allocation chart: a category name and its amount. */
  datatype Slice = Slice(name: string, value: real)

  datatype Allocation = Allocation(assetData: seq<Slice>, liabilityData: seq<Slice>)

  /** The slices of a bucket: one per category, in the bucket's order, keeping only positive amounts. */
  function PositiveSlices(d: seq<Entry<real>>): (r: seq<Slice>)
    ensures |r| <= |d|
    ensures forall i :: 0 <= i < |r| ==> r[i].value > 0.0
  {
    if d == [] then []
    else if d[0].value > 0.0 then [Slice(d[0].key, d[0].value)] + PositiveSlices(d[1..])
    else PositiveSlices(d[1..])
  }

  /** A slice is drawn exactly for an entry of the bucket with a positive value. */
  lemma {:induction false} PositiveSlicesMembers(d: seq<Entry<real>>, name: string, value: real)
    ensures Slice(name, value) in PositiveSlices(d) <==> Entry(name, value) in d && value > 0.0
  {
    if d != [] {
      PositiveSlicesMembers(d[1..], name, value);
      assert d == [d[0]] + d[1..];
    }
  }

  /** The filter keeps the entry order: the slices of two runs of entries are the slices of each, one after the other. */
  lemma {:induction false} PositiveSlicesAppend(a: seq<Entry<real>>, b: seq<Entry<real>>)
    ensures PositiveSlices(a + b) == PositiveSlices(a) + PositiveSlices(b)
  {
    if a != [] {
      assert (a + b)[1..] == a[1..] + b;
      PositiveSlicesAppend(a[1..], b);
    } else {
      assert a + b == b;
    }
  }

  /**
   * allocationData: two empty lists for an empty series; otherwise the
   * positive entries of the latest month's buckets. None when the latest
   * month lacks a bucket, where listing the entries of a missing bucket throws.
   */
  function AllocationData(data: seq<Processed>): (r: Option<Allocation>)
    ensures data == [] ==> r == Some(Allocation([], []))
    ensures data != [] ==>
      var latest := data[|data| - 1].month;
      && (r.None? <==> latest.assets.None? || latest.liabilities.None?)
      && (r.Some? ==> r.value.assetData == PositiveSlices(latest.assets.value)
                      && r.value.liabilityData == PositiveSlices(latest.liabilities.value))
  {
    if data == [] then Some(Allocation([], []))
    else
      var latest := data[|data| - 1].month;
      match (latest.assets, latest.liabilities)
      case (Some(a), Some(l)) => Some(Allocation(PositiveSlices(a), PositiveSlices(l)))
      case _ => None
  }

  // ---------------------------------------------------------------------
  // assetCompositionData
  // ---------------------------------------------------------------------

  /** A property of a composition row: the date label or an asset amount. */
  datatype Field = Text(text: string) | Num(amount: real)

  /** Object spread of amounts `d` over `acc`: each entry of `d`, in order, written over `acc`. */
  function SpreadInto(acc: Dict<Field>, d: Dict<real>): (r: Dict<Field>)
    ensures Keys(r) == Keys(acc) + Keys(d)
    decreases |d|
  {
    if d == [] then acc
    else
      KeysCons(d[0], d[1..]);
      assert d == [d[0]] + d[1..];
      SpreadInto(Assign(acc, d[0].key, Num(d[0].value)), d[1..])
  }

  /** After the spread, a property of `d` reads `d`'s amount and any other property reads as in `acc`. */
  lemma {:induction false} SpreadIntoGet(acc: Dict<Field>, d: Dict<real>, k: string)
    ensures Get(SpreadInto(acc, d), k) == if k in Keys(d) then Some(Num(Get(d, k).value)) else Get(acc, k)
    decreases |d|
  {
    if d != [] {
      var acc' := Assign(acc, d[0].key, Num(d[0].value));
      SpreadIntoGet(acc', d[1..], k);
      AssignGet(acc, d[0].key, Num(d[0].value), k);
      KeysCons(d[0], d[1..]);
      assert d == [d[0]] + d[1..];
    }
  }

  /** The chart row of a month: its date label followed by its asset cells; an absent bucket adds nothing. */
  function CompositionRow(m: Month): (r: Dict<Field>)
    ensures Keys(r) == {"date"} + KeysOf(m, Assets)
  {
    KeysCons(Entry("date", Text(m.date)), []);
    assert [Entry("date", Text(m.date))] + [] == [Entry("date", Text(m.date))];
    SpreadInto([Entry("date", Text(m.date))], BucketOrEmpty(m, Assets))
  }

  /**
   * A row has the month's date under "date" and each asset's amount under
   * its name; an asset named "date" overrides the date label.
   */
  lemma CompositionRowGet(m: Month, k: string)
    ensures Get(CompositionRow(m), k) ==
      if k in KeysOf(m, Assets) then Some(Num(Get(BucketOrEmpty(m, Assets), k).value))
      else if k == "date" then Some(Text(m.date))
      else None
  {
    SpreadIntoGet([Entry("date", Text(m.date))], BucketOrEmpty(m, Assets), k);
  }

  /** assetCompositionData: one row per month, in order. */
  function AssetCompositionData(data: seq<Month>): (r: seq<Dict<Field>>)
    ensures |r| == |data|
    ensures forall i :: 0 <= i < |data| ==> r[i] == CompositionRow(data[i])
  {
    seq(|data|, i requires 0 <= i < |data| => CompositionRow(data[i]))
  }
}
