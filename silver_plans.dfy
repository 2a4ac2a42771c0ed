/**
 * The Silver-plan grouper: `parse_silver_plans`.
 *
 * From the plan catalogue it keeps the rows whose metal level is exactly
 * "Silver", reads their rates, groups the rates by rate area and sorts each
 * group in ascending order. A Silver row whose rate cell is not a number
 * aborts the whole grouping.
 *
 * The reading of a rate cell is a parameter, `read`: the grouping is proved
 * for every reader, and the pipeline instantiates it with `Rates.ParseRate`.
 */
module SilverPlans {
  import opened Wrappers
  import opened Records
  import opened Sorting

  /** The tier test: the exact, case-sensitive text "Silver", with no trimming. */
  predicate IsSilver(p: PlanRow) {
    p.metalLevel == "Silver"
  }

  /** A reader of rate cells: the number a cell denotes, or `None` where `float` raises. */
  type RateReader = string -> Option<real>

  /** The error `float` raises, carrying the text it could not read. */
  datatype ParseError = MalformedRate(text: string)

  /** Row `i` is a Silver row whose rate cell does not read as a number. */
  predicate Malformed(plans: seq<PlanRow>, i: nat, read: RateReader)
    requires i < |plans|
  {
    IsSilver(plans[i]) && read(plans[i].rate).None?
  }

  /** Every Silver row among the first `n` has a rate that reads (other rows are never read). */
  predicate ParsesBefore(plans: seq<PlanRow>, n: nat, read: RateReader)
    requires n <= |plans|
  {
    forall i | 0 <= i < n :: !Malformed(plans, i, read)
  }

  predicate SilverRatesParse(plans: seq<PlanRow>, read: RateReader) {
    ParsesBefore(plans, |plans|, read)
  }

  /** The first malformed Silver row at or after row `n`, if any. */
  function FirstMalformedFrom(plans: seq<PlanRow>, n: nat, read: RateReader): (r: Option<nat>)
    requires n <= |plans|
    ensures r.None? <==> forall i | n <= i < |plans| :: !Malformed(plans, i, read)
    ensures r.Some? ==> n <= r.value < |plans| && Malformed(plans, r.value, read)
    ensures r.Some? ==> forall i | n <= i < r.value :: !Malformed(plans, i, read)
    decreases |plans| - n
  {
    if n == |plans| then None
    else if Malformed(plans, n, read) then Some(n)
    else FirstMalformedFrom(plans, n + 1, read)
  }

  /** The position of the first malformed Silver row: the one at which `float` raises. */
  function FirstMalformed(plans: seq<PlanRow>, read: RateReader): (r: Option<nat>)
    ensures r.None? <==> SilverRatesParse(plans, read)
    ensures r.Some? ==> r.value < |plans| && Malformed(plans, r.value, read)
    ensures r.Some? ==> ParsesBefore(plans, r.value, read)
  {
    FirstMalformedFrom(plans, 0, read)
  }

  /** A malformed Silver row preceded only by well-formed ones is the first. */
  lemma FirstMalformedAt(plans: seq<PlanRow>, i: nat, read: RateReader)
    requires i < |plans| && Malformed(plans, i, read) && ParsesBefore(plans, i, read)
    ensures FirstMalformed(plans, read) == Some(i)
  {
  }

  /** The rates of an area in a table, or the empty list for an area it does not hold (`dict.get(k, [])`). */
  function RatesAt(table: map<AreaKey, seq<real>>, k: AreaKey): seq<real> {
    if k in table then table[k] else []
  }

  /**
   * The first loop of `parse_silver_plans` after `n` rows: each Silver row's
   * rate appended to its area's list, in catalogue order. An area is present
   * only once a Silver row has named it, so no stored list is empty.
   */
  function Grouped(plans: seq<PlanRow>, n: nat, read: RateReader): (g: map<AreaKey, seq<real>>)
    requires n <= |plans| && ParsesBefore(plans, n, read)
    ensures forall k | k in g :: |g[k]| > 0
  {
    if n == 0 then map[]
    else
      var p := plans[n - 1];
      assert !Malformed(plans, n - 1, read);
      var prior := Grouped(plans, n - 1, read);
      if IsSilver(p) then prior[p.Key() := RatesAt(prior, p.Key()) + [read(p.rate).value]]
      else prior
  }

  /** The grouping of the whole catalogue. */
  function GroupedAll(plans: seq<PlanRow>, read: RateReader): map<AreaKey, seq<real>>
    requires SilverRatesParse(plans, read)
  {
    Grouped(plans, |plans|, read)
  }

  /** Among the first `n` rows, those that are Silver, of area `k` and with a rate reading as `x`. */
  function Matching(plans: seq<PlanRow>, n: nat, k: AreaKey, x: real, read: RateReader): set<nat>
    requires n <= |plans|
  {
    set i: nat | i < n && Matches(plans[i], k, x, read)
  }

  predicate Matches(p: PlanRow, k: AreaKey, x: real, read: RateReader) {
    IsSilver(p) && p.Key() == k && read(p.rate) == Some(x)
  }

  /**
   * An area's list holds each rate exactly as often as Silver rows of that
   * area carry it: the list is a permutation of those rows' rates, with
   * duplicates kept.
   */
  lemma {:induction false} GroupedCounts(plans: seq<PlanRow>, n: nat, k: AreaKey, x: real, read: RateReader)
    requires n <= |plans| && ParsesBefore(plans, n, read)
    ensures multiset(RatesAt(Grouped(plans, n, read), k))[x] == |Matching(plans, n, k, x, read)|
  {
    if n > 0 {
      var p := plans[n - 1];
      GroupedCounts(plans, n - 1, k, x, read);
      MatchingStep(plans, n, k, x, read);
      var prior := RatesAt(Grouped(plans, n - 1, read), k);
      if IsSilver(p) && p.Key() == k {
        assert !Malformed(plans, n - 1, read);
        var y := read(p.rate).value;
        assert RatesAt(Grouped(plans, n, read), k) == prior + [y];
        assert multiset(prior + [y]) == multiset(prior) + multiset{y};
      } else {
        assert RatesAt(Grouped(plans, n, read), k) == prior;
      }
    } else {
      assert Matching(plans, n, k, x, read) == {};
    }
  }

  /** Row `n - 1` joins the matching rows exactly when it matches. */
  lemma MatchingStep(plans: seq<PlanRow>, n: nat, k: AreaKey, x: real, read: RateReader)
    requires 0 < n <= |plans|
    ensures |Matching(plans, n, k, x, read)| == |Matching(plans, n - 1, k, x, read)| +
      if Matches(plans[n - 1], k, x, read) then 1 else 0
  {
    var before, after := Matching(plans, n - 1, k, x, read), Matching(plans, n, k, x, read);
    var added := if Matches(plans[n - 1], k, x, read) then {n - 1} else {};
    forall i | i in after ensures i in before + added {
      if i < n - 1 {
        assert i in before;
      }
    }
    forall i | i in before + added ensures i in after {
      if i in before {
        assert i < n - 1 && Matches(plans[i], k, x, read);
      }
    }
    assert after == before + added;
    assert before !! added;
  }

  /** An area is a key of the grouping exactly when some Silver row names it. */
  lemma {:induction false} GroupedKeys(plans: seq<PlanRow>, n: nat, k: AreaKey, read: RateReader)
    requires n <= |plans| && ParsesBefore(plans, n, read)
    ensures k in Grouped(plans, n, read) <==> exists i | 0 <= i < n :: IsSilver(plans[i]) && plans[i].Key() == k
  {
    if n > 0 {
      GroupedKeys(plans, n - 1, k, read);
    }
  }

  /** The grouping of the first `n` rows depends on those rows alone. */
  lemma {:induction false} GroupedPrefix(a: seq<PlanRow>, b: seq<PlanRow>, n: nat, read: RateReader)
    requires n <= |a| && n <= |b| && (forall i | 0 <= i < n :: a[i] == b[i])
    requires ParsesBefore(a, n, read)
    ensures ParsesBefore(b, n, read)
    ensures Grouped(a, n, read) == Grouped(b, n, read)
  {
    forall i | 0 <= i < n ensures !Malformed(b, i, read) {
      assert !Malformed(a, i, read);
    }
    if n > 0 {
      GroupedPrefix(a, b, n - 1, read);
    }
  }

  /** Every list of a table in ascending order. */
  function SortedGroups(g: map<AreaKey, seq<real>>): (r: map<AreaKey, seq<real>>)
    ensures r.Keys == g.Keys
    ensures forall k | k in r :: IsSorted(r[k]) && multiset(r[k]) == multiset(g[k])
  {
    map k | k in g :: SortAscending(g[k])
  }

  /**
   * What `parse_silver_plans` returns: on a malformed Silver rate, the error
   * for the first one; otherwise each area's grouped rates, sorted.
   */
  function SilverTable(plans: seq<PlanRow>, read: RateReader): (r: Result<map<AreaKey, seq<real>>, ParseError>)
    ensures r.Failure? <==> !SilverRatesParse(plans, read)
    ensures r.Failure? ==> r.error == MalformedRate(plans[FirstMalformed(plans, read).value].rate)
    ensures r.Success? ==> r.value.Keys == GroupedAll(plans, read).Keys
    ensures r.Success? ==> forall k | k in r.value ::
      && IsSorted(r.value[k])
      && multiset(r.value[k]) == multiset(GroupedAll(plans, read)[k])
      && |r.value[k]| > 0
  {
    match FirstMalformed(plans, read)
    case Some(i) => Failure(MalformedRate(plans[i].rate))
    case None =>
      Success(SortedGroups(GroupedAll(plans, read)))
  }

  /** Each list of the table is the ascending rearrangement of the area's Silver rates in catalogue order. */
  lemma TableListIsSortedGroup(plans: seq<PlanRow>, read: RateReader, k: AreaKey)
    requires SilverRatesParse(plans, read)
    ensures SilverTable(plans, read).Success?
    ensures RatesAt(SilverTable(plans, read).value, k) == SortAscending(RatesAt(GroupedAll(plans, read), k))
  {
    var raw := GroupedAll(plans, read);
    assert SilverTable(plans, read).value == SortedGroups(raw);
    if k !in raw {
      assert SortAscending([]) == [];
    }
  }

  /**
   * `parse_silver_plans`: the first loop appends each Silver rate to its
   * area's list (and stops at the first malformed rate), the second sorts
   * every list.
   */
  method ParseSilverPlans(plans: seq<PlanRow>, read: RateReader) returns (r: Result<map<AreaKey, seq<real>>, ParseError>)
    ensures r == SilverTable(plans, read)
  {
    var table: map<AreaKey, seq<real>> := map[];
    var i := 0;
    while i < |plans|
      invariant 0 <= i <= |plans|
      invariant ParsesBefore(plans, i, read)
      invariant table == Grouped(plans, i, read)
    {
      var plan := plans[i];
      if plan.metalLevel == "Silver" {
        var key := plan.Key();
        var rate := read(plan.rate);
        if rate.None? {
          FirstMalformedAt(plans, i, read);
          return Failure(MalformedRate(plan.rate));
        }
        var current := if key in table then table[key] else [];
        table := table[key := current + [rate.value]];
      }
      i := i + 1;
    }
    assert FirstMalformed(plans, read).None? && table == GroupedAll(plans, read);
    table := SortEachArea(table);
    r := Success(table);
  }

  /** The table part way through the second loop: the lists of the `pending` areas not yet sorted. */
  function PartlySorted(grouped: map<AreaKey, seq<real>>, pending: set<AreaKey>): map<AreaKey, seq<real>> {
    map k | k in grouped :: if k in pending then grouped[k] else SortAscending(grouped[k])
  }

  /** Sorting one pending list moves its area out of `pending`. */
  lemma PartlySortedStep(grouped: map<AreaKey, seq<real>>, pending: set<AreaKey>, key: AreaKey)
    requires key in pending && key in grouped
    ensures PartlySorted(grouped, pending)[key := SortAscending(grouped[key])] == PartlySorted(grouped, pending - {key})
  {
    var before, after := PartlySorted(grouped, pending)[key := SortAscending(grouped[key])], PartlySorted(grouped, pending - {key});
    assert before.Keys == after.Keys;
    forall k | k in before ensures before[k] == after[k] {
      if k != key {
        assert (k in pending) == (k in pending - {key});
      }
    }
  }

  lemma PartlySortedDone(grouped: map<AreaKey, seq<real>>)
    ensures PartlySorted(grouped, {}) == SortedGroups(grouped)
  {
  }

  /** The second loop of `parse_silver_plans`: every area's list sorted in place. */
  method SortEachArea(grouped: map<AreaKey, seq<real>>) returns (table: map<AreaKey, seq<real>>)
    ensures table == SortedGroups(grouped)
  {
    table := grouped;
    var pending := table.Keys;
    assert table == PartlySorted(grouped, pending);
    while pending != {}
      invariant pending <= grouped.Keys
      invariant table == PartlySorted(grouped, pending)
      decreases |pending|
    {
      var key :| key in pending;
      PartlySortedStep(grouped, pending, key);
      table := table[key := SortAscending(table[key])];
      pending := pending - {key};
    }
    PartlySortedDone(grouped);
  }

  /** `with` is `without` with one more row inserted at index `j`. */
  predicate InsertedAt(with: seq<PlanRow>, without: seq<PlanRow>, j: nat) {
    && |with| == |without| + 1
    && j < |with|
    && (forall i | 0 <= i < j :: with[i] == without[i])
    && (forall i | j <= i < |without| :: with[i + 1] == without[i])
  }

  /** Inserting a row that is not Silver leaves the rows before and after it reading as they did. */
  lemma ParsesSkipsRow(with: seq<PlanRow>, without: seq<PlanRow>, j: nat, n: nat, read: RateReader)
    requires InsertedAt(with, without, j) && !IsSilver(with[j]) && j <= n <= |without|
    ensures ParsesBefore(with, n + 1, read) <==> ParsesBefore(without, n, read)
  {
    if ParsesBefore(with, n + 1, read) {
      forall i | 0 <= i < n ensures !Malformed(without, i, read) {
        if i < j {
          assert !Malformed(with, i, read);
        } else {
          assert !Malformed(with, i + 1, read);
        }
      }
    }
    if ParsesBefore(without, n, read) {
      forall i | 0 <= i < n + 1 ensures !Malformed(with, i, read) {
        if i < j {
          assert !Malformed(without, i, read);
        } else if i > j {
          assert !Malformed(without, i - 1, read);
        }
      }
    }
  }

  /**
   * Inserting a row that is not Silver shifts the rows after it: the rates
   * read exactly when they did before, and then the grouping is unchanged.
   */
  lemma {:induction false} GroupedSkipsRow(with: seq<PlanRow>, without: seq<PlanRow>, j: nat, n: nat, read: RateReader)
    requires InsertedAt(with, without, j) && !IsSilver(with[j]) && j <= n <= |without|
    ensures ParsesBefore(with, n + 1, read) <==> ParsesBefore(without, n, read)
    ensures ParsesBefore(without, n, read) ==> Grouped(with, n + 1, read) == Grouped(without, n, read)
  {
    ParsesSkipsRow(with, without, j, n, read);
    if ParsesBefore(without, n, read) {
      if n == j {
        GroupedPrefix(without, with, j, read);
        assert !Malformed(with, j, read);
      } else {
        assert ParsesBefore(without, n - 1, read);
        GroupedSkipsRow(with, without, j, n - 1, read);
        assert with[n] == without[n - 1];
        assert !Malformed(without, n - 1, read);
        assert !Malformed(with, n, read);
      }
    }
  }

  /**
   * A row that is not Silver changes nothing, wherever it stands and whatever
   * its rate cell holds: its rate is never read.
   */
  lemma NonSilverRowIgnored(a: seq<PlanRow>, p: PlanRow, b: seq<PlanRow>, read: RateReader)
    requires !IsSilver(p)
    ensures SilverTable(a + [p] + b, read) == SilverTable(a + b, read)
  {
    var with, without := a + [p] + b, a + b;
    var j := |a|;
    assert InsertedAt(with, without, j);
    match FirstMalformed(without, read)
    case None =>
      GroupedSkipsRow(with, without, j, |without|, read);
      assert FirstMalformed(with, read).None?;
      assert GroupedAll(with, read) == GroupedAll(without, read);
    case Some(k) =>
      var k' := if k < j then k else k + 1;
      assert with[k'] == without[k] && FirstMalformed(with, read) == Some(k') by {
        if k < j {
          GroupedPrefix(without, with, k, read);
          FirstMalformedAt(with, k, read);
        } else {
          GroupedSkipsRow(with, without, j, k, read);
          FirstMalformedAt(with, k + 1, read);
        }
      }
  }
}
