/**
 * The summary cards (components/SummaryCards.tsx): the latest month's net
 * worth, total assets and total liabilities, each with its change against
 * the month before, classified as an increase, a decrease or neutral.
 */
module Summary {
  import opened Wrappers
  import opened Metrics

  datatype ChangeType = Increase | Decrease | Neutral

  /**
   * getChange's answer. `percent` is the number the card prints with two
   * decimals; it is 0 where the card prints '0.00%' without computing.
   */
  datatype Change = Change(percent: real, kind: ChangeType)

  /** getChange: the change from `prev` to `current` in percent of |prev|; none without a nonzero previous value. */
  function GetChange(current: real, prev: Option<real>): (c: Change)
    ensures prev.None? || prev.value == 0.0 ==> c == Change(0.0, Neutral)
    ensures prev.Some? && prev.value != 0.0 ==>
      && c.percent == (current - prev.value) / Abs(prev.value) * 100.0
      && (c.kind == Increase <==> current > prev.value)
      && (c.kind == Decrease <==> current < prev.value)
      && (c.kind == Neutral <==> current == prev.value)
  {
    if prev.None? || prev.value == 0.0 then Change(0.0, Neutral)
    else
      var change := (current - prev.value) / Abs(prev.value) * 100.0;
      SignOfChange(current, prev.value);
      Change(change, if change > 0.0 then Increase else if change < 0.0 then Decrease else Neutral)
  }

  /** Dividing by |prev| keeps the sign of the difference. */
  lemma SignOfChange(current: real, prev: real)
    requires prev != 0.0
    ensures var change := (current - prev) / Abs(prev) * 100.0;
      && (change > 0.0 <==> current > prev)
      && (change < 0.0 <==> current < prev)
  {
    var d, a := current - prev, Abs(prev);
    assert a > 0.0;
    if d > 0.0 {
      assert d / a > 0.0;
    } else if d < 0.0 {
      assert d / a < 0.0 by { assert -d / a > 0.0; assert -d / a == -(d / a); }
    } else {
      assert d / a == 0.0;
    }
  }

  /** The liabilities card shows a rise as bad news: increase and decrease swap, neutral stays. */
  function Inverted(t: ChangeType): (r: ChangeType)
    ensures r == Neutral <==> t == Neutral
    ensures t == Increase ==> r == Decrease
    ensures t == Decrease ==> r == Increase
  {
    match t
    case Increase => Decrease
    case Decrease => Increase
    case Neutral => Neutral
  }

  /** Swapping twice gives the classification back. */
  lemma InvertedTwice(t: ChangeType)
    ensures Inverted(Inverted(t)) == t
  {
  }

  /** One card: the value shown, the change computed and the classification the card displays. */
  datatype Card = Card(value: real, change: Change, shown: ChangeType)

  datatype Cards = Cards(netWorth: Card, totalAssets: Card, totalLiabilities: Card)

  /** The three cards for the processed series; None when the series is empty and nothing is drawn. */
  function SummaryCards(data: seq<Processed>): (r: Option<Cards>)
    ensures r.None? <==> data == []
    ensures r.Some? ==>
      var latest := data[|data| - 1];
      && r.value.netWorth.value == latest.net
      && r.value.totalAssets.value == latest.totalAsset
      && r.value.totalLiabilities.value == latest.totalLiability
    ensures |data| >= 2 ==>
      var latest, previous := data[|data| - 1], data[|data| - 2];
      && r.value.netWorth.change == GetChange(latest.net, Some(previous.net))
      && r.value.totalAssets.change == GetChange(latest.totalAsset, Some(previous.totalAsset))
      && r.value.totalLiabilities.change == GetChange(latest.totalLiability, Some(previous.totalLiability))
    ensures |data| == 1 ==>
      && r.value.netWorth.change == GetChange(data[0].net, None)
      && r.value.totalAssets.change == GetChange(data[0].totalAsset, None)
      && r.value.totalLiabilities.change == GetChange(data[0].totalLiability, None)
    ensures r.Some? ==>
      && r.value.netWorth.shown == r.value.netWorth.change.kind
      && r.value.totalAssets.shown == r.value.totalAssets.change.kind
      && r.value.totalLiabilities.shown == Inverted(r.value.totalLiabilities.change.kind)
  {
    if data == [] then None
    else
      var latest := data[|data| - 1];
      var previous: Option<Processed> := if |data| > 1 then Some(data[|data| - 2]) else None;
      var netWorthChange := GetChange(latest.net, if previous.Some? then Some(previous.value.net) else None);
      var assetsChange := GetChange(latest.totalAsset, if previous.Some? then Some(previous.value.totalAsset) else None);
      var liabilitiesChange :=
        GetChange(latest.totalLiability, if previous.Some? then Some(previous.value.totalLiability) else None);
      Some(Cards(
        Card(latest.net, netWorthChange, netWorthChange.kind),
        Card(latest.totalAsset, assetsChange, assetsChange.kind),
        Card(latest.totalLiability, liabilitiesChange, Inverted(liabilitiesChange.kind))))
  }

  /** With a single month there is nothing to compare against: every card is neutral at 0. */
  lemma SingleMonthNeutral(p: Processed)
    ensures var c := SummaryCards([p]).value;
      && c.netWorth.change == Change(0.0, Neutral) && c.netWorth.shown == Neutral
      && c.totalAssets.change == Change(0.0, Neutral) && c.totalAssets.shown == Neutral
      && c.totalLiabilities.change == Change(0.0, Neutral) && c.totalLiabilities.shown == Neutral
  {
  }

  /**
   * Against a nonzero previous value, the net worth and assets cards show an
   * increase exactly when the figure rose, and the liabilities card shows an
   * increase exactly when the liabilities fell; against a zero previous value
   * a card is neutral.
   */
  lemma CardsAgainstPrevious(data: seq<Processed>)
    requires |data| >= 2
    ensures var c := SummaryCards(data).value;
      var latest, previous := data[|data| - 1], data[|data| - 2];
      && (previous.net != 0.0 ==> (c.netWorth.shown == Increase <==> latest.net > previous.net))
      && (previous.net != 0.0 ==> (c.netWorth.shown == Decrease <==> latest.net < previous.net))
      && (previous.totalAsset != 0.0 ==> (c.totalAssets.shown == Increase <==> latest.totalAsset > previous.totalAsset))
      && (previous.totalAsset != 0.0 ==> (c.totalAssets.shown == Decrease <==> latest.totalAsset < previous.totalAsset))
      && (previous.totalLiability != 0.0 ==>
            (c.totalLiabilities.shown == Increase <==> latest.totalLiability < previous.totalLiability))
      && (previous.totalLiability != 0.0 ==>
            (c.totalLiabilities.shown == Decrease <==> latest.totalLiability > previous.totalLiability))
      && (previous.net == 0.0 ==> c.netWorth.shown == Neutral)
      && (previous.totalAsset == 0.0 ==> c.totalAssets.shown == Neutral)
      && (previous.totalLiability == 0.0 ==> c.totalLiabilities.shown == Neutral)
  {
  }
}
