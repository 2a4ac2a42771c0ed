/**
 * The area resolver: `map_zip_to_rate_areas`, and the auto-vivifying
 * dictionary it returns.
 *
 * The index maps each ZIP code to the set of rate areas it appears with in
 * the ZIP mapping. It is a `defaultdict(set)`: reading a missing ZIP code
 * stores an empty set for it, and the calculator does such reads, so the
 * index is an object whose `areas` field its methods update.
 */
module ZipAreas {
  import opened Records

  type AreaIndex = map<string, set<AreaKey>>

  /** The areas stored for a ZIP code, the empty set for one the index does not hold. */
  function AreasAt(index: AreaIndex, zip: string): set<AreaKey> {
    if zip in index then index[zip] else {}
  }

  /** What a read of `zip` leaves behind: an empty set stored for a missing ZIP code, nothing else changed. */
  function Vivify(index: AreaIndex, zip: string): (r: AreaIndex)
    ensures r.Keys == index.Keys + {zip}
    ensures forall z | z in index :: r[z] == index[z]
    ensures zip !in index ==> r[zip] == {}
    ensures forall z :: AreasAt(r, z) == AreasAt(index, z)
  {
    if zip in index then index else index[zip := {}]
  }

  /**
   * The loop of `map_zip_to_rate_areas` after `n` rows: each row's area
   * added to the set of its ZIP code. A ZIP code is present only once a row
   * has named it, so no stored set is empty.
   */
  function ZipIndex(zips: seq<ZipRow>, n: nat): (m: AreaIndex)
    requires n <= |zips|
    ensures forall z | z in m :: m[z] != {}
  {
    if n == 0 then map[]
    else
      var prior := ZipIndex(zips, n - 1);
      var row := zips[n - 1];
      prior[row.zipcode := AreasAt(prior, row.zipcode) + {row.Key()}]
  }

  /** The index of the whole ZIP mapping. */
  function ZipIndexAll(zips: seq<ZipRow>): AreaIndex {
    ZipIndex(zips, |zips|)
  }

  /** The index holds exactly the ZIP codes of the mapping rows. */
  lemma {:induction false} ZipIndexKeys(zips: seq<ZipRow>, n: nat, zip: string)
    requires n <= |zips|
    ensures zip in ZipIndex(zips, n) <==> exists i | 0 <= i < n :: zips[i].zipcode == zip
  {
    if n > 0 {
      ZipIndexKeys(zips, n - 1, zip);
    }
  }

  /** A ZIP code's set holds exactly the areas of the rows with that ZIP code. */
  lemma {:induction false} ZipIndexAreas(zips: seq<ZipRow>, n: nat, zip: string, area: AreaKey)
    requires n <= |zips|
    ensures area in AreasAt(ZipIndex(zips, n), zip) <==>
      exists i | 0 <= i < n :: zips[i].zipcode == zip && zips[i].Key() == area
  {
    if n > 0 {
      ZipIndexAreas(zips, n - 1, zip, area);
    }
  }

  /** The index of the first `n` rows depends on those rows alone. */
  lemma {:induction false} ZipIndexPrefix(a: seq<ZipRow>, b: seq<ZipRow>, n: nat)
    requires n <= |a| && n <= |b| && a[..n] == b[..n]
    ensures ZipIndex(a, n) == ZipIndex(b, n)
  {
    if n > 0 {
      assert a[n - 1] == a[..n][n - 1] == b[..n][n - 1] == b[n - 1];
      assert a[..n - 1] == a[..n][..n - 1];
      assert b[..n - 1] == b[..n][..n - 1];
      ZipIndexPrefix(a, b, n - 1);
    }
  }

  /** Repeating a ZIP code with an area it already has leaves the index as it was. */
  lemma RepeatedRowIgnored(zips: seq<ZipRow>, row: ZipRow, i: nat)
    requires i < |zips| && zips[i].zipcode == row.zipcode && zips[i].Key() == row.Key()
    ensures ZipIndexAll(zips + [row]) == ZipIndexAll(zips)
  {
    var more := zips + [row];
    assert more[..|zips|] == zips[..|zips|];
    ZipIndexPrefix(more, zips, |zips|);
    assert more[|zips|] == row;
    ZipIndexAreas(zips, |zips|, row.zipcode, row.Key());
    var prior := ZipIndex(zips, |zips|);
    assert AreasAt(prior, row.zipcode) + {row.Key()} == AreasAt(prior, row.zipcode);
  }

  /** A `defaultdict(set)` from ZIP codes to rate areas. */
  class ZipAreaIndex {
    var areas: AreaIndex

    constructor ()
      ensures areas == map[]
    {
      areas := map[];
    }

    /** `index[zip].add(area)`: the set of `zip`, created empty if missing, gains `area`. */
    method Add(zip: string, area: AreaKey)
      modifies this
      ensures areas == old(areas)[zip := AreasAt(old(areas), zip) + {area}]
    {
      var current := if zip in areas then areas[zip] else {};
      areas := areas[zip := current + {area}];
    }

    /** `index[zip]`: the set of `zip`; a missing ZIP code is first stored with an empty set. */
    method Lookup(zip: string) returns (s: set<AreaKey>)
      modifies this
      ensures s == AreasAt(old(areas), zip)
      ensures areas == Vivify(old(areas), zip)
    {
      if zip !in areas {
        areas := areas[zip := {}];
      }
      s := areas[zip];
    }
  }

  /** `map_zip_to_rate_areas`: a fresh index filled row by row. */
  method MapZipToRateAreas(zips: seq<ZipRow>) returns (index: ZipAreaIndex)
    ensures fresh(index)
    ensures index.areas == ZipIndexAll(zips)
  {
    index := new ZipAreaIndex();
    for i := 0 to |zips|
      invariant index.areas == ZipIndex(zips, i)
    {
      var z := zips[i];
      index.Add(z.zipcode, z.Key());
    }
  }
}
