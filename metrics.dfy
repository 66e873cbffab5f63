/**
 * The dashboard's metrics pass (App.tsx, processedData): one left-to-right
 * walk over the months that totals each bucket and compares each month with
 * the one before, through two running values seeded at 0.
 */
module Metrics {
  import opened Wrappers
  import opened Records

  /** A month with its derived figures (ProcessedMonthlyData). */
  datatype Processed = Processed(
    month: Month,
    totalAsset: real,
    totalLiability: real,
    net: real,
    diffInTotalAsset: real,
    myAssets: real,
    percentageChange: real,
    diffInNet: real)

  function Abs(x: real): (r: real)
    ensures r >= 0.0 && (r == x || r == -x)
  {
    if x < 0.0 then -x else x
  }

  /** The bucket total: the sum of the amounts in bucket `kind` of `m`, zero when the month has no such bucket. */
  function Total(m: Month, kind: Kind): (r: real)
    ensures BucketOf(m, kind).None? ==> r == 0.0
  {
    Sum(BucketOrEmpty(m, kind))
  }

  /** A month's figures, given the previous month's total assets and net worth (0 and 0 before the first). */
  function Figures(m: Month, lastTotalAsset: real, lastNet: real): (p: Processed)
    ensures p.month == m
    ensures p.totalAsset == Total(m, Assets) && p.totalLiability == Total(m, Liabilities)
    ensures p.net == p.totalAsset - p.totalLiability && p.myAssets == p.net
    ensures p.diffInTotalAsset == p.totalAsset - lastTotalAsset && p.diffInNet == p.net - lastNet
    ensures lastNet == 0.0 ==> p.percentageChange == 0.0
    ensures lastNet != 0.0 ==> p.percentageChange == p.diffInNet / Abs(lastNet) * 100.0
  {
    var totalAsset := Total(m, Assets);
    var totalLiability := Total(m, Liabilities);
    var net := totalAsset - totalLiability;
    var diffInTotalAsset := totalAsset - lastTotalAsset;
    var diffInNet := net - lastNet;
    var percentageChange := if lastNet != 0.0 then diffInNet / Abs(lastNet) * 100.0 else 0.0;
    Processed(m, totalAsset, totalLiability, net, diffInTotalAsset, net, percentageChange, diffInNet)
  }

  /** The rest of the pass, from the months `data` on, with the running values it has reached. */
  function ProcessFrom(data: seq<Month>, lastTotalAsset: real, lastNet: real): (r: seq<Processed>)
    ensures |r| == |data|
  {
    if data == [] then []
    else
      var p := Figures(data[0], lastTotalAsset, lastNet);
      [p] + ProcessFrom(data[1..], p.totalAsset, p.net)
  }

  /** processedData: the pass over all months, seeded with 0 and 0. */
  function ProcessedSeries(data: seq<Month>): (r: seq<Processed>)
    ensures |r| == |data|
    ensures |data| >= 1 ==> r[0] == Figures(data[0], 0.0, 0.0)
  {
    ProcessFrom(data, 0.0, 0.0)
  }

  /** The running values the pass holds before month `i`: 0 and 0 first, then the previous month's totals. */
  function CarryBefore(r: seq<Processed>, i: int): (real, real)
    requires 0 <= i <= |r|
  {
    if i == 0 then (0.0, 0.0) else (r[i - 1].totalAsset, r[i - 1].net)
  }

  /** Every record of ProcessFrom is its month's figures against the record before it. */
  lemma {:induction false} ProcessFromRecurrence(data: seq<Month>, ta: real, n: real, i: int)
    requires 0 <= i < |data|
    ensures var r := ProcessFrom(data, ta, n);
      r[i] == Figures(data[i], if i == 0 then ta else r[i - 1].totalAsset, if i == 0 then n else r[i - 1].net)
  {
    if i > 0 {
      var p := Figures(data[0], ta, n);
      var rest := ProcessFrom(data[1..], p.totalAsset, p.net);
      ProcessFromRecurrence(data[1..], p.totalAsset, p.net, i - 1);
      assert ProcessFrom(data, ta, n) == [p] + rest;
      assert ProcessFrom(data, ta, n)[i] == rest[i - 1];
      if i > 1 {
        assert ProcessFrom(data, ta, n)[i - 1] == rest[i - 2];
      }
    }
  }

  /**
   * The output keeps the months in order and each record holds its month's
   * figures against the previous record: the first month is compared with 0,
   * so its diffs are its own totals and its percentage change is 0.
   */
  lemma ProcessedRecord(data: seq<Month>, i: int)
    requires 0 <= i < |data|
    ensures var r := ProcessedSeries(data);
      && r[i].month == data[i]
      && r[i] == Figures(data[i], CarryBefore(r, i).0, CarryBefore(r, i).1)
  {
    ProcessFromRecurrence(data, 0.0, 0.0, i);
  }

  /** The first record's diffs equal its own totals and its percentage change is 0. */
  lemma FirstRecord(data: seq<Month>)
    requires |data| >= 1
    ensures var p := ProcessedSeries(data)[0];
      p.diffInTotalAsset == p.totalAsset && p.diffInNet == p.net && p.percentageChange == 0.0
  {
    ProcessedRecord(data, 0);
  }

  /** A later record's diffs and percentage change are taken against the record before it. */
  lemma LaterRecord(data: seq<Month>, i: int)
    requires 0 < i < |data|
    ensures var r := ProcessedSeries(data);
      && r[i].diffInTotalAsset == r[i].totalAsset - r[i - 1].totalAsset
      && r[i].diffInNet == r[i].net - r[i - 1].net
      && r[i].percentageChange == if r[i - 1].net != 0.0 then r[i].diffInNet / Abs(r[i - 1].net) * 100.0 else 0.0
  {
    ProcessedRecord(data, i);
  }

  /** Net worth 1000 followed by 1100 is a 10 percent change. */
  lemma TenPercent()
    ensures var data := [Month("31/01/24", Some([Entry("Cash", 1000.0)]), None),
                         Month("29/02/24", Some([Entry("Cash", 1100.0)]), None)];
      ProcessedSeries(data)[1].percentageChange == 10.0
  {
    var data := [Month("31/01/24", Some([Entry("Cash", 1000.0)]), None),
                 Month("29/02/24", Some([Entry("Cash", 1100.0)]), None)];
    assert Sum([Entry("Cash", 1000.0)]) == 1000.0 && Sum([Entry("Cash", 1100.0)]) == 1100.0;
    var r := ProcessedSeries(data);
    ProcessedRecord(data, 0);
    ProcessedRecord(data, 1);
    assert r[0].net == 1000.0;
    assert r[1].net == 1100.0;
  }

  /** One step of the pass: the record of month `i`, then the pass from month `i` + 1 on. */
  lemma ProcessFromStep(data: seq<Month>, i: int, ta: real, n: real)
    requires 0 <= i < |data|
    ensures var p := Figures(data[i], ta, n);
      ProcessFrom(data[i..], ta, n) == [p] + ProcessFrom(data[i + 1..], p.totalAsset, p.net)
  {
    assert data[i..][1..] == data[i + 1..];
  }

  /** The loop of the source: map over the months, updating lastTotalAsset and lastNet after each. */
  method Process(data: seq<Month>) returns (r: seq<Processed>)
    ensures r == ProcessedSeries(data)
  {
    var lastTotalAsset := 0.0;
    var lastNet := 0.0;
    r := [];
    assert data[0..] == data;
    var i := 0;
    while i < |data|
      invariant 0 <= i <= |data|
      invariant r + ProcessFrom(data[i..], lastTotalAsset, lastNet) == ProcessFrom(data, 0.0, 0.0)
    {
      var p := Figures(data[i], lastTotalAsset, lastNet);
      ProcessFromStep(data, i, lastTotalAsset, lastNet);
      var rest := ProcessFrom(data[i + 1..], p.totalAsset, p.net);
      assert (r + [p]) + rest == r + ([p] + rest);
      r := r + [p];
      lastTotalAsset := p.totalAsset;
      lastNet := p.net;
      i := i + 1;
    }
    assert data[i..] == [];
    assert r == ProcessFrom(data, 0.0, 0.0);
  }
}
