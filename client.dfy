/**
 * The dashboard's state and its edit protocol (App.tsx): the series it
 * shows, the error banner, the optimistic single-cell edit that is rolled
 * back when the save fails, and the local guards in front of the
 * add-category and add-month requests. Every network exchange is a `Reply`
 * parameter; an `await` splits a handler into the part before the request
 * and a continuation that receives the reply.
 */
module Client {
  import opened Wrappers
  import opened Records
  import opened Categories
  import Server

  /** How a request ended: an ok response with its body, a response that is not ok, or a thrown value. */
  datatype Reply<T> =
    | Ok(body: T)
    | NotOk
    | Threw(message: Option<string>)   // the Error's message; None for a thrown value that is not an Error

  const UnknownError: string := "An unknown error occurred."
  const FetchFailed: string := "Failed to fetch data from the server."
  const SaveFailed: string := "Failed to save changes."
  const AddCategoryFailed: string := "Failed to add category."
  const AddMonthFailed: string := "Failed to add new month."
  /** The TypeError message V8 gives when the edit reads the date of a row that does not exist. */
  const MissingRowError: string := "Cannot read properties of undefined (reading 'date')"

  /** The banner text for a thrown value: an Error's own message, otherwise a fixed fallback. */
  function Message(message: Option<string>): (r: string)
    ensures message.Some? ==> r == message.value
    ensures message.None? ==> r == UnknownError
  {
    if message.Some? then message.value else UnknownError
  }

  /** The banner text for a request that failed with `reply`: the handler's own message for a not-ok response. */
  function FailureText<T>(reply: Reply<T>, notOk: string): (r: string)
    requires !reply.Ok?
    ensures reply.NotOk? ==> r == notOk
    ensures reply.Threw? ==> r == Message(reply.message)
  {
    if reply.NotOk? then notOk else Message(reply.message)
  }

  /**
   * The number an edit field holds: an empty field counts as zero, anything
   * else is read by parseFloat, a parameter here; None stands for NaN.
   */
  function NumericInput(value: string, parseFloat: string -> Option<real>): (r: Option<real>)
    ensures value == "" ==> r == Some(0.0)
    ensures value != "" ==> r == parseFloat(value)
  {
    if value == "" then Some(0.0) else parseFloat(value)
  }

  /**
   * The optimistic `newData`: row `rowIndex` with `type[category]` set to
   * `v` (the bucket created when the row has none), every other row as is.
   */
  function EditSeries(data: seq<Month>, rowIndex: int, kind: Kind, category: string, v: real): (r: seq<Month>)
    ensures |r| == |data|
    ensures forall i :: 0 <= i < |data| && i != rowIndex ==> r[i] == data[i]
    ensures 0 <= rowIndex < |data| ==>
      && r[rowIndex].date == data[rowIndex].date
      && BucketOf(r[rowIndex], kind.Other()) == BucketOf(data[rowIndex], kind.Other())
      && KeysOf(r[rowIndex], kind) == KeysOf(data[rowIndex], kind) + {category}
  {
    seq(|data|, i requires 0 <= i < |data| => if i == rowIndex then WithCell(data[i], kind, category, v) else data[i])
  }

  /** In the edited row the cell reads the new number and the bucket's other cells read as before. */
  lemma EditSeriesCell(data: seq<Month>, rowIndex: int, kind: Kind, category: string, v: real, k: string)
    requires 0 <= rowIndex < |data|
    ensures Get(BucketOrEmpty(EditSeries(data, rowIndex, kind, category, v)[rowIndex], kind), k)
            == if k == category then Some(v) else Get(BucketOrEmpty(data[rowIndex], kind), k)
  {
    WithCellGet(data[rowIndex], kind, category, v, k);
  }

  /**
   * The optimistic edit is what the server stores for the same request when
   * the edited row is the first with its date and has the bucket; when the
   * row has no such bucket the server answers 404 instead.
   */
  lemma EditAgreesWithServer(data: seq<Month>, rowIndex: int, kind: Kind, category: string, v: real)
    requires 0 <= rowIndex < |data|
    requires forall j :: 0 <= j < rowIndex ==> data[j].date != data[rowIndex].date
    ensures var reply := Server.PutEntrySeries(data, data[rowIndex].date, kind, category, v);
      && (BucketOf(data[rowIndex], kind).Some? ==> reply == Some(EditSeries(data, rowIndex, kind, category, v)))
      && (BucketOf(data[rowIndex], kind).None? ==> reply.None?)
  {
    var date := data[rowIndex].date;
    var found := Server.FirstWithDate(data, date);
    assert found == Some(rowIndex);
    if BucketOf(data[rowIndex], kind).Some? {
      var edited := EditSeries(data, rowIndex, kind, category, v);
      var stored := data[rowIndex := WithCell(data[rowIndex], kind, category, v)];
      assert Server.PutEntrySeries(data, date, kind, category, v) == Some(stored);
      assert forall j :: 0 <= j < |data| ==> edited[j] == stored[j];
      assert edited == stored;
    }
  }

  /**
   * When an earlier row is the first with the edited row's date and has the
   * bucket, the server updates that earlier row, not the edited one: after a
   * successful PUT the dashboard shows a cell the server does not store.
   */
  lemma EditOfRepeatedDate(data: seq<Month>, rowIndex: int, first: int, kind: Kind, category: string, v: real)
    requires 0 <= first < rowIndex < |data| && data[first].date == data[rowIndex].date
    requires forall j :: 0 <= j < first ==> data[j].date != data[rowIndex].date
    requires BucketOf(data[first], kind).Some? && category !in KeysOf(data[rowIndex], kind)
    ensures var reply := Server.PutEntrySeries(data, data[rowIndex].date, kind, category, v);
      && reply.Some? && reply.value[rowIndex] == data[rowIndex]
      && reply != Some(EditSeries(data, rowIndex, kind, category, v))
  {
    var date := data[rowIndex].date;
    assert Server.FirstWithDate(data, date) == Some(first);
    var edited := EditSeries(data, rowIndex, kind, category, v);
    assert category in KeysOf(edited[rowIndex], kind);
  }

  /** The PUT request the edit sends. */
  datatype PutRequest = PutRequest(date: string, kind: Kind, category: string, value: real)

  /** A save in flight: the request sent and the series to restore if it fails. */
  datatype Pending = Pending(request: PutRequest, oldData: seq<Month>)

  /** The App component's state. */
  class Dashboard {
    var data: seq<Month>
    var isLoading: bool
    var error: Option<string>

    constructor ()
      ensures data == [] && isLoading && error == None
    {
      data := [];
      isLoading := true;
      error := None;
    }

    /** fetchData: the series from the server, or the old series and an error banner. */
    method FetchData(reply: Reply<seq<Month>>)
      modifies this
      ensures !isLoading
      ensures reply.Ok? ==> data == reply.body && error == None
      ensures !reply.Ok? ==> data == old(data) && error == Some(FailureText(reply, FetchFailed))
    {
      error := None;
      isLoading := true;
      if reply.Ok? {
        data := reply.body;
      } else {
        error := Some(FailureText(reply, FetchFailed));
      }
      isLoading := false;
    }

    /**
     * handleDataChange up to its request: a NaN input changes nothing; an
     * edit shows the new series at once. A row index with no row makes the
     * request body throw, which restores the series and sets the error.
     */
    method HandleDataChange(rowIndex: int, kind: Kind, category: string, value: string,
                            parseFloat: string -> Option<real>) returns (pending: Option<Pending>)
      modifies this
      ensures var n := NumericInput(value, parseFloat);
        && (n.None? ==> pending.None? && data == old(data) && error == old(error))
        && (n.Some? && !(0 <= rowIndex < |old(data)|) ==>
              pending.None? && data == old(data) && error == Some(MissingRowError))
        && (n.Some? && 0 <= rowIndex < |old(data)| ==>
              && pending == Some(Pending(PutRequest(old(data)[rowIndex].date, kind, category, n.value), old(data)))
              && data == EditSeries(old(data), rowIndex, kind, category, n.value)
              && error == old(error))
      ensures isLoading == old(isLoading)
    {
      var numericValue := NumericInput(value, parseFloat);
      if numericValue.None? {
        return None;
      }
      var oldData := data;
      data := EditSeries(data, rowIndex, kind, category, numericValue.value);
      if !(0 <= rowIndex < |oldData|) {
        data := oldData;
        error := Some(MissingRowError);
        return None;
      }
      pending := Some(Pending(PutRequest(oldData[rowIndex].date, kind, category, numericValue.value), oldData));
    }

    /** handleDataChange after its request: a failed save restores the series from before the edit. */
    method SaveSettled(p: Pending, reply: Reply<()>)
      modifies this
      ensures isLoading == old(isLoading)
      ensures reply.Ok? ==> data == old(data) && error == old(error)
      ensures !reply.Ok? ==> data == p.oldData && error == Some(FailureText(reply, SaveFailed))
    {
      if !reply.Ok? {
        data := p.oldData;
        error := Some(FailureText(reply, SaveFailed));
      }
    }

    /**
     * handleAddCategory up to its request: no request for an empty name or a
     * name the bucket already uses in some month.
     */
    method HandleAddCategory(kind: Kind, category: string) returns (request: Option<(Kind, string)>)
      ensures request.None? <==> category == "" || exists i :: 0 <= i < |data| && category in KeysOf(data[i], kind)
      ensures request.Some? ==> request.value == (kind, category)
    {
      var assetCategories, liabilityCategories := DeriveCategories(data);
      var known := if kind == Assets then assetCategories else liabilityCategories;
      CategoryListNames(data, kind);
      AllKeysMeaning(data, kind, category);
      if category == "" || category in known {
        return None;
      }
      request := Some((kind, category));
    }

    /** handleAddMonth up to its request: nothing is sent for an empty series. */
    method HandleAddMonth() returns (send: bool)
      ensures send <==> data != []
    {
      send := |data| != 0;
    }

    /**
     * The rest of handleAddCategory and handleAddMonth: a failure sets the
     * error; success fetches the series again.
     */
    method MutationSettled(reply: Reply<()>, notOk: string, refetch: Reply<seq<Month>>)
      modifies this
      ensures !reply.Ok? ==> data == old(data) && error == Some(FailureText(reply, notOk)) && isLoading == old(isLoading)
      ensures reply.Ok? ==> !isLoading
      ensures reply.Ok? && refetch.Ok? ==> data == refetch.body && error == None
      ensures reply.Ok? && !refetch.Ok? ==> data == old(data) && error == Some(FailureText(refetch, FetchFailed))
    {
      if !reply.Ok? {
        error := Some(FailureText(reply, notOk));
      } else {
        FetchData(refetch);
      }
    }
  }

  /** An edit whose save fails leaves the dashboard showing exactly the series it showed before. */
  method EditRolledBack(d: Dashboard, rowIndex: int, kind: Kind, category: string, value: string,
                        parseFloat: string -> Option<real>, reply: Reply<()>)
    requires !reply.Ok?
    modifies d
    ensures d.data == old(d.data)
  {
    var pending := d.HandleDataChange(rowIndex, kind, category, value, parseFloat);
    if pending.Some? {
      d.SaveSettled(pending.value, reply);
    }
  }
}
