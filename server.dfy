/**
 * The Express server's in-memory snapshot store (server.js): the series of
 * monthly records and the five handlers that change it, each returning the
 * HTTP status it answers with.
 */
module Server {
  import opened Wrappers
  import opened Records
  import opened Calendar

  const OK: int := 200
  const Created: int := 201
  const BadRequest: int := 400
  const NotFound: int := 404

  // ---------------------------------------------------------------------
  // Startup: the baseline file and the default seed
  // ---------------------------------------------------------------------

  /** What startup finds at initialData.json. */
  datatype BaselineFile =
    | Missing                       // no file: reading throws, the seed is written afterwards
    | Unreadable                    // a file that cannot be read or parsed as JSON
    | Parsed(data: seq<Month>)      // a file holding a JSON array of months

  /** INITIAL_DATA: the parsed file, or the empty series when reading or parsing throws. */
  function Loaded(file: BaselineFile): (r: seq<Month>)
    ensures file.Parsed? ==> r == file.data
    ensures !file.Parsed? ==> r == []
  {
    match file
    case Parsed(data) => data
    case _ => []
  }

  function AssetsOf(mutualFunds: real, stocks: real, retirement: real, savings: real, realEstate: real): (d: Dict<real>)
    ensures |d| == 5
  {
    [Entry("Mutual Funds", mutualFunds), Entry("Stocks", stocks), Entry("Retirement Fund", retirement),
     Entry("Savings Account", savings), Entry("Real Estate", realEstate)]
  }

  function LiabilitiesOf(homeLoan: real, carLoan: real, creditCard: real): (d: Dict<real>)
    ensures |d| == 3
  {
    [Entry("Home Loan", homeLoan), Entry("Car Loan", carLoan), Entry("Credit Card Debt", creditCard)]
  }

  /** The two-month demonstration series the server writes when no baseline file exists. */
  function DefaultData(): (r: seq<Month>)
    ensures |r| == 2 && r[0].date == "31/01/24" && r[1].date == "29/02/24"
  {
    [ Month("31/01/24",
            Some(AssetsOf(50000.0, 82000.0, 205000.0, 100000.0, 5000000.0)),
            Some(LiabilitiesOf(2995000.0, 195000.0, 25000.0))),
      Month("29/02/24",
            Some(AssetsOf(53000.0, 85000.0, 210000.0, 102000.0, 5000000.0)),
            Some(LiabilitiesOf(2990000.0, 190000.0, 18000.0))) ]
  }

  /** The seed has the same category names in every month, in both buckets. */
  lemma DefaultDataUniform(kind: Kind)
    ensures Uniform(DefaultData(), kind)
  {
    var s := DefaultData();
    assert KeysOf(s[0], kind) == KeysOf(s[1], kind) by {
      match kind
      case Assets =>
        var a, b := AssetsOf(50000.0, 82000.0, 205000.0, 100000.0, 5000000.0), AssetsOf(53000.0, 85000.0, 210000.0, 102000.0, 5000000.0);
        assert forall i :: 0 <= i < 5 ==> a[i].key == b[i].key;
      case Liabilities =>
        var a, b := LiabilitiesOf(2995000.0, 195000.0, 25000.0), LiabilitiesOf(2990000.0, 190000.0, 18000.0);
        assert forall i :: 0 <= i < 3 ==> a[i].key == b[i].key;
    }
  }

  // ---------------------------------------------------------------------
  // One month: writing and deleting one property of a bucket
  // ---------------------------------------------------------------------

  /** Deletes cell `category` of bucket `kind`; a month without the bucket is left as is. */
  function WithoutCell(m: Month, kind: Kind, category: string): (r: Month)
    ensures r.date == m.date
    ensures KeysOf(r, kind) == KeysOf(m, kind) - {category}
    ensures BucketOf(r, kind).Some? == BucketOf(m, kind).Some?
    ensures BucketOf(r, kind.Other()) == BucketOf(m, kind.Other())
    ensures forall k :: k != category ==> Get(BucketOrEmpty(r, kind), k) == Get(BucketOrEmpty(m, kind), k)
    ensures category !in KeysOf(m, kind) ==> r == m
  {
    match BucketOf(m, kind)
    case None => m
    case Some(b) =>
      if category !in Keys(b) then m
      else WithBucket(m, kind, Remove(b, category))
  }

  // ---------------------------------------------------------------------
  // The handlers on the series, as functions of the series before
  // ---------------------------------------------------------------------

  /** The index of the first month whose date label equals `date`, None when there is none. */
  function FirstWithDate(s: seq<Month>, date: string): (r: Option<nat>)
    ensures r.None? ==> forall j :: 0 <= j < |s| ==> s[j].date != date
    ensures r.Some? ==> r.value < |s| && s[r.value].date == date
                        && forall j :: 0 <= j < r.value ==> s[j].date != date
  {
    if s == [] then None
    else if s[0].date == date then Some(0)
    else
      match FirstWithDate(s[1..], date)
      case None => None
      case Some(i) => Some(i + 1)
  }

  /**
   * PUT /api/data/entry: the series after the update, or None for the 404
   * answer, when no month has the date or the first month with it has no
   * bucket `kind`. Only cell `category` of that bucket in that month
   * changes; it is created when absent.
   */
  function PutEntrySeries(s: seq<Month>, date: string, kind: Kind, category: string, value: real): (r: Option<seq<Month>>)
    ensures r.None? <==> FirstWithDate(s, date).None? || BucketOf(s[FirstWithDate(s, date).value], kind).None?
    ensures r.Some? ==>
      var i := FirstWithDate(s, date).value;
      && |r.value| == |s|
      && (forall j :: 0 <= j < |s| && j != i ==> r.value[j] == s[j])
      && r.value[i].date == s[i].date
      && BucketOf(r.value[i], kind.Other()) == BucketOf(s[i], kind.Other())
      && KeysOf(r.value[i], kind) == KeysOf(s[i], kind) + {category}
  {
    match FirstWithDate(s, date)
    case None => None
    case Some(i) =>
      if BucketOf(s[i], kind).None? then None
      else Some(s[i := WithCell(s[i], kind, category, value)])
  }

  /** A successful update makes the cell read the value sent and leaves the other cells of that bucket as they were. */
  lemma PutEntryCell(s: seq<Month>, date: string, kind: Kind, category: string, value: real, k: string)
    requires PutEntrySeries(s, date, kind, category, value).Some?
    ensures var i := FirstWithDate(s, date).value;
      Get(BucketOrEmpty(PutEntrySeries(s, date, kind, category, value).value[i], kind), k)
        == if k == category then Some(value) else Get(BucketOrEmpty(s[i], kind), k)
  {
    var i := FirstWithDate(s, date).value;
    WithCellGet(s[i], kind, category, value, k);
  }

  /** POST /api/data/category: every month gets the bucket if it lacked it and the category at 0. */
  function AddCategorySeries(s: seq<Month>, kind: Kind, category: string): (r: seq<Month>)
    ensures |r| == |s|
    ensures forall i :: 0 <= i < |s| ==>
      && r[i].date == s[i].date
      && BucketOf(r[i], kind).Some?
      && KeysOf(r[i], kind) == KeysOf(s[i], kind) + {category}
      && BucketOf(r[i], kind.Other()) == BucketOf(s[i], kind.Other())
  {
    seq(|s|, i requires 0 <= i < |s| => WithCell(s[i], kind, category, 0.0))
  }

  /**
   * After adding a category, it reads 0 in every month, also where it
   * existed before (there is no duplicate check), and every other category
   * keeps its value.
   */
  lemma AddCategoryCell(s: seq<Month>, kind: Kind, category: string, i: int, k: string)
    requires 0 <= i < |s|
    ensures Get(BucketOrEmpty(AddCategorySeries(s, kind, category)[i], kind), k)
            == if k == category then Some(0.0) else Get(BucketOrEmpty(s[i], kind), k)
  {
    WithCellGet(s[i], kind, category, 0.0, k);
  }

  /** DELETE /api/data/category: the category goes from every month that has the bucket. */
  function RemoveCategorySeries(s: seq<Month>, kind: Kind, category: string): (r: seq<Month>)
    ensures |r| == |s|
    ensures forall i :: 0 <= i < |s| ==>
      && r[i].date == s[i].date
      && KeysOf(r[i], kind) == KeysOf(s[i], kind) - {category}
      && BucketOf(r[i], kind).Some? == BucketOf(s[i], kind).Some?
      && BucketOf(r[i], kind.Other()) == BucketOf(s[i], kind.Other())
      && (BucketOf(s[i], kind).None? ==> r[i] == s[i])
  {
    seq(|s|, i requires 0 <= i < |s| => WithoutCell(s[i], kind, category))
  }

  /** Removing a category leaves the values of the other categories as they were. */
  lemma RemoveCategoryCell(s: seq<Month>, kind: Kind, category: string, i: int, k: string)
    requires 0 <= i < |s| && k != category
    ensures Get(BucketOrEmpty(RemoveCategorySeries(s, kind, category)[i], kind), k) == Get(BucketOrEmpty(s[i], kind), k)
  {
  }

  /** A second identical removal changes nothing. */
  lemma {:induction false} RemoveCategoryIdempotent(s: seq<Month>, kind: Kind, category: string)
    ensures var once := RemoveCategorySeries(s, kind, category);
      RemoveCategorySeries(once, kind, category) == once
  {
    var once := RemoveCategorySeries(s, kind, category);
    var twice := RemoveCategorySeries(once, kind, category);
    forall i | 0 <= i < |once| ensures twice[i] == once[i] {
      assert category !in KeysOf(once[i], kind);
    }
  }

  /** The month appended after `last`: a copy of it under the next date label. */
  function NextMonth(last: Month): (r: Month)
    ensures r.date == NextSnapshotDate(last.date)
    ensures r.assets == last.assets && r.liabilities == last.liabilities
  {
    last.(date := NextSnapshotDate(last.date))
  }

  /**
   * POST /api/data/month: None for the 400 answer on an empty series;
   * otherwise the series with a copy of its last month appended under the
   * next date label.
   */
  function AppendMonthSeries(s: seq<Month>): (r: Option<seq<Month>>)
    ensures r.None? <==> s == []
    ensures r.Some? ==>
      && |r.value| == |s| + 1
      && r.value[..|s|] == s
      && r.value[|s|].date == NextSnapshotDate(s[|s| - 1].date)
      && r.value[|s|].assets == s[|s| - 1].assets
      && r.value[|s|].liabilities == s[|s| - 1].liabilities
  {
    if s == [] then None else Some(s + [NextMonth(s[|s| - 1])])
  }

  // ---------------------------------------------------------------------
  // Schema consistency: the same category names in every month
  // ---------------------------------------------------------------------

  /** Adding a category keeps every bucket's category names the same across months. */
  lemma AddCategoryKeepsUniform(s: seq<Month>, kind: Kind, category: string, k: Kind)
    requires Uniform(s, k)
    ensures Uniform(AddCategorySeries(s, kind, category), k)
  {
    var r := AddCategorySeries(s, kind, category);
    forall i, j | 0 <= i < |r| && 0 <= j < |r| ensures KeysOf(r[i], k) == KeysOf(r[j], k) {
      if k != kind {
        assert k == kind.Other();
      }
    }
  }

  /** Removing a category keeps every bucket's category names the same across months. */
  lemma RemoveCategoryKeepsUniform(s: seq<Month>, kind: Kind, category: string, k: Kind)
    requires Uniform(s, k)
    ensures Uniform(RemoveCategorySeries(s, kind, category), k)
  {
    var r := RemoveCategorySeries(s, kind, category);
    forall i, j | 0 <= i < |r| && 0 <= j < |r| ensures KeysOf(r[i], k) == KeysOf(r[j], k) {
      if k != kind {
        assert k == kind.Other();
      }
    }
  }

  /** Appending a month keeps every bucket's category names the same across months. */
  lemma AppendMonthKeepsUniform(s: seq<Month>, k: Kind)
    requires Uniform(s, k) && s != []
    ensures Uniform(AppendMonthSeries(s).value, k)
  {
    var next := NextMonth(s[|s| - 1]);
    assert BucketOf(next, k) == BucketOf(s[|s| - 1], k);
    AppendSameNames(s, next, k);
  }

  /** Appending a month with the names of the last month keeps the series schema-consistent. */
  lemma AppendSameNames(s: seq<Month>, m: Month, k: Kind)
    requires Uniform(s, k) && s != [] && KeysOf(m, k) == KeysOf(s[|s| - 1], k)
    ensures Uniform(s + [m], k)
  {
    var r := s + [m];
    forall i | 0 <= i < |r| ensures KeysOf(r[i], k) == KeysOf(s[|s| - 1], k) {
      if i < |s| {
        assert r[i] == s[i];
      }
    }
  }

  /**
   * The point update alone can break schema consistency: writing a new
   * category name into one month of a two-month series leaves the other
   * month without it.
   */
  lemma PutEntryCanBreakUniform()
    ensures var s := [Month("31/01/24", Some([]), Some([])), Month("29/02/24", Some([]), Some([]))];
      && Uniform(s, Assets)
      && PutEntrySeries(s, "31/01/24", Assets, "Gold", 1.0).Some?
      && !Uniform(PutEntrySeries(s, "31/01/24", Assets, "Gold", 1.0).value, Assets)
  {
    var s := [Month("31/01/24", Some([]), Some([])), Month("29/02/24", Some([]), Some([]))];
    assert FirstWithDate(s, "31/01/24") == Some(0);
    var r := PutEntrySeries(s, "31/01/24", Assets, "Gold", 1.0).value;
    assert "Gold" in KeysOf(r[0], Assets);
    assert KeysOf(r[1], Assets) == {};
  }

  // ---------------------------------------------------------------------
  // The store
  // ---------------------------------------------------------------------

  /** The module-level `financialData` array and the INITIAL_DATA it is reset to. */
  class SnapshotStore {
    var series: seq<Month>
    const baseline: seq<Month>

    /**
     * Startup: INITIAL_DATA is the loaded file, or [] when it cannot be read;
     * the live series is a copy of it, except that a missing file is then
     * created with the seed and the live series set to the seed.
     */
    constructor (file: BaselineFile)
      ensures baseline == Loaded(file)
      ensures series == if file.Missing? then DefaultData() else Loaded(file)
    {
      baseline := Loaded(file);
      series := Loaded(file);
      if file.Missing? {
        series := DefaultData();
      }
    }

    /** GET /api/data. */
    method Data() returns (d: seq<Month>)
      ensures d == series
    {
      d := series;
    }

    /** PUT /api/data/entry: 200 and the update, or 404 and no change. */
    method PutEntry(date: string, kind: Kind, category: string, value: real) returns (status: int)
      modifies this
      ensures var r := PutEntrySeries(old(series), date, kind, category, value);
        && (r.None? ==> status == NotFound && series == old(series))
        && (r.Some? ==> status == OK && series == r.value)
    {
      var i := 0;
      while i < |series| && series[i].date != date
        invariant 0 <= i <= |series|
        invariant forall j :: 0 <= j < i ==> series[j].date != date
      {
        i := i + 1;
      }
      if i < |series| && BucketOf(series[i], kind).Some? {
        assert FirstWithDate(series, date) == Some(i);
        series := series[i := WithCell(series[i], kind, category, value)];
        status := OK;
      } else {
        assert i < |series| ==> FirstWithDate(series, date) == Some(i);
        status := NotFound;
      }
    }

    /** POST /api/data/category: always 201. */
    method AddCategory(kind: Kind, category: string) returns (status: int)
      modifies this
      ensures status == Created
      ensures series == AddCategorySeries(old(series), kind, category)
    {
      var i := 0;
      while i < |series|
        invariant 0 <= i <= |series| == |old(series)|
        invariant forall j :: 0 <= j < i ==> series[j] == WithCell(old(series)[j], kind, category, 0.0)
        invariant forall j :: i <= j < |series| ==> series[j] == old(series)[j]
      {
        series := series[i := WithCell(series[i], kind, category, 0.0)];
        i := i + 1;
      }
      status := Created;
    }

    /** DELETE /api/data/category: always 200. */
    method RemoveCategory(kind: Kind, category: string) returns (status: int)
      modifies this
      ensures status == OK
      ensures series == RemoveCategorySeries(old(series), kind, category)
    {
      var i := 0;
      while i < |series|
        invariant 0 <= i <= |series| == |old(series)|
        invariant forall j :: 0 <= j < i ==> series[j] == WithoutCell(old(series)[j], kind, category)
        invariant forall j :: i <= j < |series| ==> series[j] == old(series)[j]
      {
        if BucketOf(series[i], kind).Some? {
          series := series[i := WithoutCell(series[i], kind, category)];
        }
        i := i + 1;
      }
      status := OK;
    }

    /** POST /api/data/month: 400 on an empty series, otherwise 201 and the appended month. */
    method AddMonth() returns (status: int)
      modifies this
      ensures var r := AppendMonthSeries(old(series));
        && (r.None? ==> status == BadRequest && series == old(series))
        && (r.Some? ==> status == Created && series == r.value)
    {
      if |series| == 0 {
        return BadRequest;
      }
      var lastData := series[|series| - 1];
      series := series + [NextMonth(lastData)];
      status := Created;
    }

    /** POST /api/data/reset: always 200; the series becomes a fresh copy of INITIAL_DATA. */
    method Reset() returns (status: int)
      modifies this
      ensures status == OK && series == baseline
    {
      series := baseline;
      status := OK;
    }
  }

  /** After a month labelled NaN/NaN/aN every appended month carries the same label, so dates repeat. */
  lemma AppendAfterInvalidRepeatsDate(s: seq<Month>)
    requires s != [] && s[|s| - 1].date == InvalidLabel
    ensures var r := AppendMonthSeries(s).value;
      r[|s|].date == r[|s| - 1].date == InvalidLabel
  {
    InvalidLabelRepeats();
  }

  /**
   * When the baseline file was missing at startup, the live series starts as
   * the two-month seed but INITIAL_DATA is empty, so a reset empties it.
   */
  method ResetAfterMissingBaseline() returns (before: seq<Month>, after: seq<Month>)
    ensures before == DefaultData() && after == []
  {
    var store := new SnapshotStore(Missing);
    before := store.Data();
    var status := store.Reset();
    after := store.Data();
  }
}
