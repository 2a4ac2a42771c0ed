/**
 * The calculator: `calculate_slcsp`, and what its answers mean.
 *
 * For each requested ZIP code the calculator reads the ZIP code's rate
 * areas from the index (storing an empty set for a ZIP code the index does
 * not hold), gives a blank unless there is exactly one area, gives a blank
 * unless that area has at least two Silver rates, and otherwise reports the
 * element at index 1 of the area's sorted rates. Each blank comes with a
 * warning, which the model returns as a list beside the rows.
 */
module Slcsp {
  import opened Wrappers
  import opened Records
  import opened Rates
  import opened Sorting
  import opened SilverPlans
  import opened ZipAreas

  /** Why a ZIP code got a blank; the source logs each of these as a warning. */
  datatype Warning =
    | AmbiguousRateAreas(zipcode: string)
    | NoRateArea(zipcode: string)
    | InsufficientRates(area: AreaKey)

  /** One output row: the ZIP code and its second-lowest Silver rate, `None` for a blank cell. */
  datatype Row = Row(zipcode: string, rate: Option<real>)

  /** The decision for one ZIP code: a blank with its reason, or the rate to report. */
  datatype Outcome = Blank(reason: Warning) | Quote(rate: real)

  type RateTable = map<AreaKey, seq<real>>

  /** The only element of a one-element set. */
  ghost function TheArea(areas: set<AreaKey>): (a: AreaKey)
    requires |areas| == 1
    ensures areas == {a}
  {
    var a :| a in areas;
    OnlyElement(areas, a);
    a
  }

  lemma OnlyElement(areas: set<AreaKey>, a: AreaKey)
    requires |areas| == 1 && a in areas
    ensures areas == {a}
  {
    var rest := areas - {a};
    assert |rest| == 0;
  }

  /** The branches of `calculate_slcsp` for one ZIP code whose areas are `areas`. */
  ghost function Decide(zip: string, areas: set<AreaKey>, table: RateTable): (o: Outcome)
    ensures o == Blank(AmbiguousRateAreas(zip)) <==> |areas| > 1
    ensures o == Blank(NoRateArea(zip)) <==> areas == {}
    ensures o.Blank? && o.reason.InsufficientRates? ==>
      areas == {o.reason.area} && |RatesAt(table, o.reason.area)| < 2
    ensures o.Quote? ==> |areas| == 1 && forall a | a in areas :: |RatesAt(table, a)| >= 2 && o.rate == RatesAt(table, a)[1]
    ensures |areas| == 1 ==> (o.Quote? <==> forall a | a in areas :: |RatesAt(table, a)| >= 2)
  {
    if |areas| > 1 then Blank(AmbiguousRateAreas(zip))
    else if |areas| == 0 then Blank(NoRateArea(zip))
    else
      var a := TheArea(areas);
      var rates := RatesAt(table, a);
      if |rates| < 2 then Blank(InsufficientRates(a)) else Quote(rates[1])
  }

  function RateOf(o: Outcome): Option<real> {
    if o.Quote? then Some(o.rate) else None
  }

  /** The row for one request: its ZIP code, blank exactly when a warning is logged for it. */
  ghost function RowFor(zip: string, index: AreaIndex, table: RateTable): (row: Row)
    ensures row.zipcode == zip
    ensures row.rate.None? <==> WarningOf(Decide(zip, AreasAt(index, zip), table)) != []
  {
    Row(zip, RateOf(Decide(zip, AreasAt(index, zip), table)))
  }

  /** The rows for the requests: one per request, in order. */
  ghost function Rows(targets: seq<string>, index: AreaIndex, table: RateTable): (rows: seq<Row>)
    ensures |rows| == |targets|
    ensures forall i | 0 <= i < |targets| :: rows[i].zipcode == targets[i]
  {
    seq(|targets|, i requires 0 <= i < |targets| => RowFor(targets[i], index, table))
  }

  /** The warning an outcome logs: one for a blank, none for a quote. */
  function WarningOf(o: Outcome): seq<Warning> {
    if o.Blank? then [o.reason] else []
  }

  /** The warnings for the first `n` requests, in request order, one per blank. */
  ghost function Warnings(targets: seq<string>, n: nat, index: AreaIndex, table: RateTable): (ws: seq<Warning>)
    requires n <= |targets|
    ensures |ws| <= n
  {
    if n == 0 then []
    else Warnings(targets, n - 1, index, table) + WarningOf(Decide(targets[n - 1], AreasAt(index, targets[n - 1]), table))
  }

  /** The index after the first `n` requests have been read from it: no ZIP code's areas change. */
  function VivifyAll(index: AreaIndex, targets: seq<string>, n: nat): (r: AreaIndex)
    requires n <= |targets|
    ensures forall z :: AreasAt(r, z) == AreasAt(index, z)
  {
    if n == 0 then index else Vivify(VivifyAll(index, targets, n - 1), targets[n - 1])
  }

  /**
   * Reading the requests adds exactly the requested ZIP codes the index did
   * not hold, each with an empty set, and keeps every entry it held.
   */
  lemma {:induction false} VivifyAllEntries(index: AreaIndex, targets: seq<string>, n: nat, zip: string)
    requires n <= |targets|
    ensures zip in VivifyAll(index, targets, n) <==> zip in index || exists i | 0 <= i < n :: targets[i] == zip
    ensures zip in index ==> VivifyAll(index, targets, n)[zip] == index[zip]
    ensures zip in VivifyAll(index, targets, n) && zip !in index ==> VivifyAll(index, targets, n)[zip] == {}
  {
    if n > 0 {
      VivifyAllEntries(index, targets, n - 1, zip);
    }
  }

  /**
   * `calculate_slcsp`: one row per request, and the warnings. Reading the
   * index stores an empty set for every requested ZIP code it did not hold;
   * no ZIP code's areas change.
   */
  method CalculateSlcsp(targets: seq<string>, index: ZipAreaIndex, table: RateTable)
    returns (results: seq<Row>, warnings: seq<Warning>)
    modifies index
    ensures results == Rows(targets, old(index.areas), table)
    ensures warnings == Warnings(targets, |targets|, old(index.areas), table)
    ensures index.areas == VivifyAll(old(index.areas), targets, |targets|)
  {
    results := [];
    warnings := [];
    for i := 0 to |targets|
      invariant index.areas == VivifyAll(old(index.areas), targets, i)
      invariant |results| == i
      invariant forall j | 0 <= j < i :: results[j] == RowFor(targets[j], old(index.areas), table)
      invariant warnings == Warnings(targets, i, old(index.areas), table)
    {
      var row, logged := AnswerZip(targets[i], index, table);
      assert Warnings(targets, i + 1, old(index.areas), table) == warnings + logged;
      results := results + [row];
      warnings := warnings + logged;
    }
  }

  /**
   * The body of the loop of `calculate_slcsp` for one ZIP code: its row and
   * the warning it logs, if any.
   */
  method AnswerZip(zip: string, index: ZipAreaIndex, table: RateTable) returns (row: Row, logged: seq<Warning>)
    modifies index
    ensures row == RowFor(zip, old(index.areas), table)
    ensures logged == WarningOf(Decide(zip, AreasAt(old(index.areas), zip), table))
    ensures index.areas == Vivify(old(index.areas), zip)
  {
    var areas := index.Lookup(zip);
    if |areas| != 1 {
      if |areas| > 1 {
        logged := [AmbiguousRateAreas(zip)];
      } else {
        logged := [NoRateArea(zip)];
      }
      return Row(zip, None), logged;
    }
    var area :| area in areas;
    OnlyElement(areas, area);
    var rates := RatesAt(table, area);
    if |rates| < 2 {
      row, logged := Row(zip, None), [InsufficientRates(area)];
    } else {
      row, logged := Row(zip, Some(rates[1])), [];
    }
  }

  /** A ZIP code with no rate area or with several gets a blank, with the matching warning. */
  lemma BlankUnlessOneArea(zip: string, index: AreaIndex, table: RateTable)
    requires |AreasAt(index, zip)| != 1
    ensures RowFor(zip, index, table).rate.None?
    ensures Decide(zip, AreasAt(index, zip), table) ==
      if |AreasAt(index, zip)| == 0 then Blank(NoRateArea(zip)) else Blank(AmbiguousRateAreas(zip))
  {
  }

  /**
   * A ZIP code with exactly one area gets a blank when that area has fewer
   * than two rates (an area without Silver plans has none), and otherwise
   * the rate at index 1.
   */
  lemma OneAreaAnswer(zip: string, index: AreaIndex, table: RateTable, area: AreaKey)
    requires AreasAt(index, zip) == {area}
    ensures |RatesAt(table, area)| < 2 ==> Decide(zip, AreasAt(index, zip), table) == Blank(InsufficientRates(area))
    ensures |RatesAt(table, area)| >= 2 ==> RowFor(zip, index, table).rate == Some(RatesAt(table, area)[1])
  {
    assert |AreasAt(index, zip)| == 1;
    var a := TheArea(AreasAt(index, zip));
    assert a in {area};
  }

  /** The number of blank rows among the first `n` rows. */
  function BlankRows(rows: seq<Row>, n: nat): nat
    requires n <= |rows|
  {
    if n == 0 then 0 else BlankRows(rows, n - 1) + if rows[n - 1].rate.None? then 1 else 0
  }

  /** A warning is logged exactly for each blank row. */
  lemma {:induction false} WarningsCountBlanks(targets: seq<string>, n: nat, index: AreaIndex, table: RateTable)
    requires n <= |targets|
    ensures |Warnings(targets, n, index, table)| == BlankRows(Rows(targets, index, table), n)
  {
    if n > 0 {
      WarningsCountBlanks(targets, n - 1, index, table);
      var o := Decide(targets[n - 1], AreasAt(index, targets[n - 1]), table);
      assert Rows(targets, index, table)[n - 1].rate == RateOf(o);
      assert |WarningOf(o)| == if RateOf(o).None? then 1 else 0;
    }
  }

  /**
   * Answering the same requests again, on the index the first run left
   * behind, gives the same rows and warnings.
   */
  lemma RerunUnchanged(targets: seq<string>, again: seq<string>, index: AreaIndex, table: RateTable)
    ensures Rows(again, VivifyAll(index, targets, |targets|), table) == Rows(again, index, table)
    ensures Warnings(again, |again|, VivifyAll(index, targets, |targets|), table) == Warnings(again, |again|, index, table)
  {
    var v := VivifyAll(index, targets, |targets|);
    WarningsSameAreas(again, |again|, v, index, table);
  }

  lemma {:induction false} WarningsSameAreas(targets: seq<string>, n: nat, a: AreaIndex, b: AreaIndex, table: RateTable)
    requires n <= |targets|
    requires forall z :: AreasAt(a, z) == AreasAt(b, z)
    ensures Warnings(targets, n, a, table) == Warnings(targets, n, b, table)
  {
    if n > 0 {
      WarningsSameAreas(targets, n - 1, a, b, table);
      assert AreasAt(a, targets[n - 1]) == AreasAt(b, targets[n - 1]);
    }
  }

  /** The whole calculation: the Silver table, the ZIP index, then the rows. */
  ghost function Run(plans: seq<PlanRow>, zips: seq<ZipRow>, targets: seq<string>): (r: Result<seq<Row>, ParseError>)
    ensures r.Failure? <==> !SilverRatesParse(plans, ParseRate)
    ensures r.Success? ==> |r.value| == |targets|
    ensures r.Success? ==> forall i | 0 <= i < |targets| :: r.value[i].zipcode == targets[i]
  {
    var silver := SilverTable(plans, ParseRate);
    if silver.Failure? then Failure(silver.error)
    else Success(Rows(targets, ZipIndexAll(zips), silver.value))
  }

  /** The run aborts exactly when a Silver plan's rate does not parse, naming the first such rate. */
  lemma RunAborts(plans: seq<PlanRow>, zips: seq<ZipRow>, targets: seq<string>)
    ensures Run(plans, zips, targets).Failure? <==>
      exists i | 0 <= i < |plans| :: IsSilver(plans[i]) && ParseRate(plans[i].rate).None?
    ensures Run(plans, zips, targets).Failure? ==>
      Run(plans, zips, targets).error == MalformedRate(plans[FirstMalformed(plans, ParseRate).value].rate)
  {
    if !SilverRatesParse(plans, ParseRate) {
      var i :| 0 <= i < |plans| && Malformed(plans, i, ParseRate);
      assert IsSilver(plans[i]) && ParseRate(plans[i].rate).None?;
    } else {
      forall i | 0 <= i < |plans| ensures !(IsSilver(plans[i]) && ParseRate(plans[i].rate).None?) {
        assert !Malformed(plans, i, ParseRate);
      }
    }
  }

  /**
   * For a ZIP code whose one area has the list `SortAscending(raw)` in the
   * table: a rate is reported exactly when `raw` has at least two rates, and
   * the rate reported is a second lowest of `raw`, one of its elements, no
   * lower than the first element of the sorted list and no higher than
   * any later one.
   */
  lemma QuoteIsSecondLowest(zip: string, index: AreaIndex, table: RateTable, area: AreaKey, raw: seq<real>)
    requires AreasAt(index, zip) == {area}
    requires RatesAt(table, area) == SortAscending(raw)
    ensures RowFor(zip, index, table).rate.Some? <==> |raw| >= 2
    ensures RowFor(zip, index, table).rate.Some? ==>
      var r := RowFor(zip, index, table).rate.value;
      var sorted := SortAscending(raw);
      && IsSecondLowest(r, raw)
      && r in raw
      && sorted[0] <= r
      && (forall j | 1 <= j < |sorted| :: r <= sorted[j])
  {
    OneAreaAnswer(zip, index, table, area);
    var sorted := SortAscending(raw);
    if |raw| >= 2 {
      SortedSecondIsSecondLowest(raw, sorted[1]);
      assert sorted[1] in multiset(sorted);
    }
  }

  /**
   * A reported rate belongs to a ZIP code with exactly one rate area, and it
   * is the second-lowest Silver rate of that area among the area's rates as
   * listed in the catalogue (at most one lies below it, at least two lie at
   * or below it, so when the two lowest tie it is that value), and it is one
   * of those rates.
   */
  lemma ReportedRateIsSecondLowest(plans: seq<PlanRow>, zips: seq<ZipRow>, targets: seq<string>, i: nat)
    requires SilverRatesParse(plans, ParseRate) && i < |targets|
    requires Run(plans, zips, targets).value[i].rate.Some?
    ensures |AreasAt(ZipIndexAll(zips), targets[i])| == 1
    ensures forall a | a in AreasAt(ZipIndexAll(zips), targets[i]) ::
      && IsSecondLowest(Run(plans, zips, targets).value[i].rate.value, RatesAt(GroupedAll(plans, ParseRate), a))
      && Run(plans, zips, targets).value[i].rate.value in RatesAt(GroupedAll(plans, ParseRate), a)
  {
    var table := SilverTable(plans, ParseRate).value;
    var index := ZipIndexAll(zips);
    var zip := targets[i];
    assert Run(plans, zips, targets).value[i] == RowFor(zip, index, table);
    if |AreasAt(index, zip)| != 1 {
      BlankUnlessOneArea(zip, index, table);
    } else {
      var a := TheArea(AreasAt(index, zip));
      TableListIsSortedGroup(plans, ParseRate, a);
      QuoteIsSecondLowest(zip, index, table, a, RatesAt(GroupedAll(plans, ParseRate), a));
    }
  }

  /**
   * A ZIP code with exactly one rate area gets a blank exactly when the
   * catalogue has fewer than two Silver rates for that area; in particular
   * when it has no Silver plan for it.
   */
  lemma BlankIffFewRates(plans: seq<PlanRow>, zips: seq<ZipRow>, targets: seq<string>, i: nat, area: AreaKey)
    requires SilverRatesParse(plans, ParseRate) && i < |targets|
    requires AreasAt(ZipIndexAll(zips), targets[i]) == {area}
    ensures Run(plans, zips, targets).value[i].rate.None? <==> |RatesAt(GroupedAll(plans, ParseRate), area)| < 2
    ensures (forall p | 0 <= p < |plans| :: !(IsSilver(plans[p]) && plans[p].Key() == area)) ==>
      Run(plans, zips, targets).value[i].rate.None?
  {
    var table := SilverTable(plans, ParseRate).value;
    var index := ZipIndexAll(zips);
    var raw := GroupedAll(plans, ParseRate);
    assert Run(plans, zips, targets).value[i] == RowFor(targets[i], index, table);
    TableListIsSortedGroup(plans, ParseRate, area);
    QuoteIsSecondLowest(targets[i], index, table, area, RatesAt(raw, area));
    GroupedKeys(plans, |plans|, area, ParseRate);
  }

  /**
   * A ZIP code the mapping does not list, or lists with several areas, gets
   * a blank whatever the catalogue holds.
   */
  lemma BlankUnlessListedOnce(plans: seq<PlanRow>, zips: seq<ZipRow>, targets: seq<string>, i: nat)
    requires SilverRatesParse(plans, ParseRate) && i < |targets|
    requires |AreasAt(ZipIndexAll(zips), targets[i])| != 1
    ensures Run(plans, zips, targets).Success?
    ensures |Run(plans, zips, targets).value| == |targets|
    ensures Run(plans, zips, targets).value[i] == Row(targets[i], None)
  {
    var table := SilverTable(plans, ParseRate).value;
    BlankUnlessOneArea(targets[i], ZipIndexAll(zips), table);
  }

  /** The CSV cell of a row's rate: empty for a blank, otherwise the two-decimal rendering. */
  function RateCell(rate: Option<real>): (cell: string)
    ensures cell == "" <==> rate.None?
    ensures rate.Some? ==> ParseRate(cell).Some? && -0.005 <= ParseRate(cell).value - rate.value <= 0.005
  {
    if rate.None? then ""
    else
      FormatRateWithinHalfCent(rate.value);
      FormatRate(rate.value)
  }
}
