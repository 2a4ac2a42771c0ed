/**
 * Worked cases of the calculation on small inputs.
 */
module WorkedCases {
  // Some lemmas below take their example values as parameters fixed by
  // `requires` (`r == 12.5`) rather than as literals: this keeps Dafny from
  // unrolling `SortAscending` and `FormatRate` on a literal argument.

  import opened Wrappers
  import opened Records
  import opened Rates
  import opened Sorting
  import opened SilverPlans
  import opened ZipAreas
  import opened Slcsp

  /**
   * An area with rates 34.00, 12.50, 12.50 and 27.00 sorts to 12.50, 12.50,
   * 27.00, 34.00: both copies of 12.50 are kept, so the rate at index 1,
   * and the answer written out, is 12.50.
   */
  lemma TiedLowestRates(rates: seq<real>, sorted: seq<real>)
    requires rates == [34.0, 12.5, 12.5, 27.0]
    requires sorted == [12.5, 12.5, 27.0, 34.0]
    ensures SortAscending(rates) == sorted
    ensures SortAscending(rates)[1] == 12.5
  {
    TiedOrder(sorted);
    TiedCopies(rates, sorted);
    SortedPermutationUnique(SortAscending(rates), sorted);
  }

  lemma TiedOrder(sorted: seq<real>)
    requires sorted == [12.5, 12.5, 27.0, 34.0]
    ensures IsSorted(sorted)
  {
  }

  lemma TiedCopies(rates: seq<real>, sorted: seq<real>)
    requires rates == [34.0, 12.5, 12.5, 27.0]
    requires sorted == [12.5, 12.5, 27.0, 34.0]
    ensures multiset(rates) == multiset(sorted)
  {
  }

  lemma TwelveFifty(r: real)
    requires r == 12.5
    ensures FormatRate(r) == "12.50"
  {
    assert Abs(r) * 100.0 == 1250.0;
    assert RoundHalfEven(1250.0) == 1250;
    assert NatToString(12) == "12" by {
      assert NatToString(1) == "1";
    }
    assert FormatCents(1250) == "12.50";
  }

  lemma TwoHundredCell(r: real)
    requires r == 200.0
    ensures FormatRate(r) == "200.00"
  {
    assert Abs(r) * 100.0 == 20000.0;
    assert RoundHalfEven(20000.0) == 20000;
    assert NatToString(200) == "200" by {
      assert NatToString(2) == "2";
      assert NatToString(20) == "20";
    }
    assert FormatCents(20000) == "200.00";
  }

  /** Plain two-decimal rate cells read as the amounts they spell. */
  lemma ReadTwoHundred()
    ensures ParseRate("200.00") == Some(200.0)
  {
    assert NatToString(2) == "2";
    assert NatToString(20) == "20";
    assert NatToString(200) == "200";
    assert FormatCents(20000) == "200.00";
    ParseFormatCents(20000);
    ReadSigned(false, "200.00");
  }

  lemma ReadOneFifty()
    ensures ParseRate("150.00") == Some(150.0)
  {
    assert NatToString(1) == "1";
    assert NatToString(15) == "15";
    assert NatToString(150) == "150";
    assert FormatCents(15000) == "150.00";
    ParseFormatCents(15000);
    ReadSigned(false, "150.00");
  }

  /** A cell that is not a number does not read. */
  lemma ReadLetters()
    ensures ParseRate("abc") == None
  {
    assert SplitSign("abc") == (false, "abc");
    FindFirst("abc", {'e', 'E'}, 3);
    assert "abc"[..3] == "abc";
    FindFirst("abc", {'.'}, 3);
    assert !IsDigit("abc"[0]);
  }

  const area := AreaKey("CA", "5")

  /**
   * Two Silver plans in one area, and a lower-case `silver` row whose rate
   * is not a number: the lower-case row is not a Silver plan, so it is
   * neither read nor counted.
   */
  function Catalogue(): seq<PlanRow> {
    [PlanRow("CA", "Silver", "200.00", "5"), PlanRow("CA", "silver", "abc", "5"), PlanRow("CA", "Silver", "150.00", "5")]
  }

  lemma CatalogueTable()
    ensures SilverRatesParse(Catalogue(), ParseRate)
    ensures SilverTable(Catalogue(), ParseRate) == Success(map[area := [150.0, 200.0]])
  {
    ReadTwoHundred();
    ReadOneFifty();
    CatalogueGrouping(ParseRate);
    CatalogueSorted(ParseRate);
  }

  lemma CatalogueRows()
    ensures |Catalogue()| == 3
    ensures IsSilver(Catalogue()[0]) && Catalogue()[0].Key() == area && Catalogue()[0].rate == "200.00"
    ensures !IsSilver(Catalogue()[1])
    ensures IsSilver(Catalogue()[2]) && Catalogue()[2].Key() == area && Catalogue()[2].rate == "150.00"
  {
    assert "silver"[0] != "Silver"[0];
  }

  /** The grouping of the catalogue, for any reader that reads its two Silver rates as written. */
  lemma CatalogueGrouping(read: RateReader)
    requires read("200.00") == Some(200.0) && read("150.00") == Some(150.0)
    ensures SilverRatesParse(Catalogue(), read)
    ensures GroupedAll(Catalogue(), read) == map[area := [200.0, 150.0]]
  {
    var p := Catalogue();
    CatalogueRows();
    assert ParsesBefore(p, 3, read) by {
      assert !Malformed(p, 0, read);
      assert !Malformed(p, 1, read);
      assert !Malformed(p, 2, read);
    }
    var g0 := Grouped(p, 0, read);
    var g1 := Grouped(p, 1, read);
    var g2 := Grouped(p, 2, read);
    assert g1 == g0[area := RatesAt(g0, area) + [200.0]];
    assert g2 == g1;
    assert Grouped(p, 3, read) == g2[area := RatesAt(g2, area) + [150.0]];
    assert [] + [200.0] == [200.0];
    assert [200.0] + [150.0] == [200.0, 150.0];
  }

  /** The table of the catalogue: the area's two rates in ascending order. */
  lemma CatalogueSorted(read: RateReader)
    requires SilverRatesParse(Catalogue(), read)
    requires GroupedAll(Catalogue(), read) == map[area := [200.0, 150.0]]
    ensures SilverTable(Catalogue(), read) == Success(map[area := [150.0, 200.0]])
  {
    SortedArea(GroupedAll(Catalogue(), read));
  }

  lemma SortedArea(g: map<AreaKey, seq<real>>)
    requires g == map[area := [200.0, 150.0]]
    ensures SortedGroups(g) == map[area := [150.0, 200.0]]
  {
    SortTwo();
    var t := SortedGroups(g);
    assert t.Keys == {area};
    assert t[area] == SortAscending([200.0, 150.0]);
  }

  lemma SortTwo()
    ensures SortAscending([200.0, 150.0]) == [150.0, 200.0]
  {
    assert [200.0, 150.0][1..] == [150.0];
    assert [150.0][1..] == [];
  }

  /**
   * ZIP 94102 lies in area CA 5 only and gets the higher of the area's two
   * Silver rates; ZIP 00000 is not in the mapping and gets a blank.
   */
  lemma WorkedRun()
    ensures Run(Catalogue(), [ZipRow("94102", "CA", "5")], ["94102", "00000"]) ==
      Success([Row("94102", Some(200.0)), Row("00000", None)])
  {
    CatalogueTable();
    WorkedIndex();
    WorkedRows();
  }

  lemma WorkedIndex()
    ensures ZipIndexAll([ZipRow("94102", "CA", "5")]) == map["94102" := {area}]
  {
    var zips := [ZipRow("94102", "CA", "5")];
    assert zips[0].Key() == area;
    assert ZipIndex(zips, 1) == ZipIndex(zips, 0)["94102" := AreasAt(ZipIndex(zips, 0), "94102") + {area}];
    assert ZipIndex(zips, 0) == map[];
    assert AreasAt(map[], "94102") == {};
    assert {} + {area} == {area};
  }

  lemma WorkedRows()
    ensures Rows(["94102", "00000"], map["94102" := {area}], map[area := [150.0, 200.0]]) ==
      [Row("94102", Some(200.0)), Row("00000", None)]
  {
    var index := map["94102" := {area}];
    var table := map[area := [150.0, 200.0]];
    OneAreaAnswer("94102", index, table, area);
    assert "00000" != "94102";
    BlankUnlessOneArea("00000", index, table);
    var rows := Rows(["94102", "00000"], index, table);
    assert rows[0] == Row("94102", Some(200.0));
    assert rows[1] == Row("00000", None);
  }

  /** A Silver plan whose rate is not a number aborts the run. */
  lemma MalformedRun()
    ensures Run([PlanRow("CA", "Silver", "abc", "5")], [], []) == Failure(MalformedRate("abc"))
  {
    var p := [PlanRow("CA", "Silver", "abc", "5")];
    ReadLetters();
    assert Malformed(p, 0, ParseRate);
    FirstMalformedAt(p, 0, ParseRate);
  }
}
