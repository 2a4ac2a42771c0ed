# SLCSP calculator — a Dafny model

The SLCSP calculator finds, for each requested ZIP code, the second-lowest
cost Silver plan (SLCSP) premium. It has three stages:

1. **Groups Silver plan rates.** The plan catalogue's rows whose metal level
   is exactly `Silver` are grouped by rate area, a (state, rate-area number)
   pair. Each area's rates are sorted in ascending order.
2. **Indexes ZIP codes.** The ZIP mapping becomes an index from each ZIP code
   to the set of rate areas it appears with.
3. **Answers each request.** Each requested ZIP code gets a row. The cell is
   blank when the ZIP code has no rate area, or more than one. It is also
   blank when its single area has fewer than two Silver rates. Otherwise the
   cell holds the rate at index 1 of the area's sorted list, written with two
   decimals. Each blank is logged as a warning.

The model follows the source's form:

- **Grouping.** `SilverPlans.ParseSilverPlans` is a method with the two loops
  of the source. It is proved equal to the specification function
  `SilverPlans.SilverTable`.
- **ZIP index.** The auto-vivifying dictionary is a class,
  `ZipAreas.ZipAreaIndex`. Its `Lookup` stores an empty set for a missing ZIP
  code, as `defaultdict(set)` does on a read. `ZipAreas.MapZipToRateAreas`
  fills a fresh index row by row.
- **Answers.** `Slcsp.CalculateSlcsp` loops over the requests, reading from
  and updating that index. It returns the rows and the warnings it logs.
- **Rates.** A rate is an exact decimal number (`real`).
  `Rates.ParseRate` reads a rate cell in the decimal notation Python's
  `float` accepts. `Rates.FormatRate` writes a rate as `:.2f` does: with
  rounding half to even.
- **Order-free specifications.** `Sorting.IsSecondLowest` defines the second
  lowest value without any order. The lemmas in `Slcsp` prove that every
  reported rate is the second lowest of its area's Silver rates.
- **Worked cases.** `WorkedCases` proves what the whole calculation gives
  on small inputs.

## Model

| member | source | states |
|---|---|---|
| Rates.ParseRate | slcsp_calculator.py:36 | A cell that reads as a rate is non-empty; `None` stands for the `ValueError` `float` raises. |
| Rates.FormatRate | slcsp_calculator.py:76 | The `:.2f` rendering of a rate has at least four characters. Its shape is stated by `FormatRateShape`, and what it reads back as by `ParseFormatRead`. |
| Rates.FormatRateShape | slcsp_calculator.py:76 | The `:.2f` rendering of any rate starts with `-` exactly when the rate is negative. Then come units digits without a leading zero (a lone `0` aside), a point and exactly two decimal digits. |
| Rates.RoundHalfEven | slcsp_calculator.py:76 | The rounding `:.2f` applies to the cent amount: the result lies within one half of the input. On an exact tie it is the even neighbour. It is never negative for a non-negative input, and a whole number is kept. |
| Rates.FormatCents | slcsp_calculator.py:76 | A cent amount is written as digits, a point, then exactly two digits. The units start with `0` only when they are a lone `0`. |
| Rates.ParseFormatCents | slcsp_calculator.py:76 | Reading back the two-decimal rendering of any whole number of cents gives exactly that amount. |
| Rates.ParseFormatRate | slcsp_calculator.py:76 | Round trip: any rate that is a whole number of cents, of either sign, is read back unchanged after `:.2f` formatting. |
| Rates.ParseFormatRead | slcsp_calculator.py:76 | The `:.2f` rendering of any rate reads back as its magnitude rounded half-even to cents, with the rate's sign. |
| Rates.FormatRateWithinHalfCent | slcsp_calculator.py:76 | The written answer always reads back as a number within half a cent of the rate. |
| Rates.ReadSigned | slcsp_calculator.py:36 | An optional leading `-`, in front of an unsigned text that starts with a digit, negates the unsigned reading and changes nothing else. |
| Rates.NatToString | slcsp_calculator.py:76 | A units part is written as a non-empty run of digits denoting exactly that number, with no leading zero: it starts with `0` only when it is `0`. |
| Sorting.Insert | slcsp_calculator.py:38-39 | Inserting into a sorted list keeps it sorted and adds exactly the one element. |
| Sorting.SortAscending | slcsp_calculator.py:38-39 | `list.sort()` gives a list of the same length that is in ascending order and is a permutation of the input, duplicates kept. |
| Sorting.SortedPermutationUnique | slcsp_calculator.py:38-39 | Two sorted lists with the same elements and multiplicities are equal, so the sorted list is unique. |
| Sorting.SortSorted | slcsp_calculator.py:38-39 | Sorting is idempotent: a list already in order is left as it is. |
| Sorting.CountBelowPermutation | slcsp_calculator.py:38-39 | How many rates lie below a value does not depend on their order. |
| Sorting.CountBelowConcat | slcsp_calculator.py:76 | The rates below a value in two lists joined together are those of the first list plus those of the second. |
| Sorting.CountBelowNone | slcsp_calculator.py:76 | When every rate is at or above a value, none is strictly below it. |
| Sorting.CountBelowMonotone | slcsp_calculator.py:76 | Raising a threshold never loses a rate below it. |
| Sorting.CountBelowCopies | slcsp_calculator.py:76 | Every copy of a value is counted among the rates at or below it. |
| Sorting.SecondOfSorted | slcsp_calculator.py:76 | In a sorted list of two or more rates, index 1 holds the second lowest. |
| Sorting.LowestTwiceIsSecondLowest | slcsp_calculator.py:76 | Tie case: when the lowest rate occurs twice, that rate is the second lowest. |
| Sorting.SecondLowestUnique | slcsp_calculator.py:76 | A list has at most one second-lowest value. |
| Sorting.SortedSecondIsSecondLowest | slcsp_calculator.py:75-76 | For any list of two or more rates, a value is its second lowest exactly when it is index 1 of the sorted list, in both directions. |
| SilverPlans.FirstMalformedFrom | slcsp_calculator.py:33-36 | Finds the first Silver row at or after a position whose rate does not read, or reports that there is none. |
| SilverPlans.FirstMalformed | slcsp_calculator.py:33-36 | There is no malformed Silver rate exactly when every Silver rate reads. Otherwise it gives the first malformed row, the one at which `float` raises. |
| SilverPlans.FirstMalformedAt | slcsp_calculator.py:33-36 | A malformed Silver row with only well-formed ones before it is the first malformed row. |
| SilverPlans.Grouped | slcsp_calculator.py:32-36 | After any prefix of the catalogue, no area's list is empty. |
| SilverPlans.GroupedCounts | slcsp_calculator.py:33-36 | An area's list holds each rate exactly as often as Silver rows of that area carry it. So the list is a permutation of those rows' rates, duplicates kept, and only exact `Silver` rows count. |
| SilverPlans.MatchingStep | slcsp_calculator.py:33-36 | Each row adds one to the count of rows matching an area and a rate exactly when it matches them. |
| SilverPlans.GroupedKeys | slcsp_calculator.py:34-36 | An area is a key of the grouping exactly when some Silver row names it. |
| SilverPlans.GroupedPrefix | slcsp_calculator.py:33-36 | The grouping of the first rows depends on those rows alone. |
| SilverPlans.IsSilver | slcsp_calculator.py:34 | The tier test is an exact, case-sensitive comparison with `Silver`. Its meaning is shown by `NonSilverRowIgnored` and `CatalogueRows`. |
| SilverPlans.ParsesSkipsRow | slcsp_calculator.py:34 | Inserting a row that is not Silver anywhere in the catalogue leaves the Silver rates readable exactly when they were, in both directions. |
| SilverPlans.GroupedSkipsRow | slcsp_calculator.py:34 | Inserting a row that is not Silver anywhere in the catalogue: the rates read after the insertion exactly when they did before. When they do, the grouping is unchanged. |
| SilverPlans.SilverTable | slcsp_calculator.py:30-40 | Fails exactly when some Silver rate does not read, with the error naming the first such rate. Otherwise its keys are exactly the areas with Silver rows. Each list is sorted, non-empty and a permutation of the area's Silver rates. |
| SilverPlans.RatesAt | slcsp_calculator.py:69 | `silver_plans.get(rate_area, [])`: an area the table lacks has no rates. |
| SilverPlans.SortedGroups | slcsp_calculator.py:38-39 | Sorting every list keeps the same areas, and each list becomes sorted and a permutation of the original. |
| SilverPlans.TableListIsSortedGroup | slcsp_calculator.py:38-39 | The list the table gives for any area, with `[]` for an area it lacks, is the ascending rearrangement of that area's Silver rates in catalogue order. |
| SilverPlans.ParseSilverPlans | slcsp_calculator.py:30-40 | The two loops return exactly `SilverTable`: the error at the first malformed Silver rate, or the sorted groups. |
| SilverPlans.SortEachArea | slcsp_calculator.py:38-39 | Sorting every list leaves the same areas, each list replaced by its ascending rearrangement. |
| SilverPlans.NonSilverRowIgnored | slcsp_calculator.py:34 | A row that is not exactly `Silver` changes nothing, wherever it stands: its rate cell is never read, even when it is not a number. |
| ZipAreas.AreasAt | slcsp_calculator.py:56 | The areas of a ZIP code, with the empty set as the default for a ZIP code the index does not hold. |
| ZipAreas.Vivify | slcsp_calculator.py:56 | A read of the index adds the requested ZIP code with an empty set if it is missing. It keeps every other entry and changes no ZIP code's areas. |
| ZipAreas.ZipIndex | slcsp_calculator.py:44-48 | After any prefix of the mapping, no ZIP code's set is empty. |
| ZipAreas.ZipIndexKeys | slcsp_calculator.py:44-48 | A ZIP code is a key of the index exactly when some mapping row names it. |
| ZipAreas.ZipIndexAreas | slcsp_calculator.py:44-48 | A ZIP code's set holds an area exactly when some mapping row pairs that ZIP code with that area. |
| ZipAreas.ZipIndexPrefix | slcsp_calculator.py:45-48 | The index of the first rows depends on those rows alone. |
| ZipAreas.RepeatedRowIgnored | slcsp_calculator.py:48 | A duplicate mapping row leaves the index as it was: the sets are idempotent. |
| ZipAreas.ZipAreaIndex | slcsp_calculator.py:44 | The `defaultdict(set)` from ZIP codes to rate areas, as an object whose `areas` map its methods update. |
| ZipAreas.ZipAreaIndex.constructor | slcsp_calculator.py:44 | A new index is empty. |
| ZipAreas.ZipAreaIndex.Add | slcsp_calculator.py:48 | `index[zip].add(area)`: the ZIP code's set, created empty if missing, gains the area. No other entry changes. |
| ZipAreas.ZipAreaIndex.Lookup | slcsp_calculator.py:56 | `index[zip]` returns the ZIP code's areas, or the empty set for a missing ZIP code. The only change it makes is to store that empty set. |
| ZipAreas.MapZipToRateAreas | slcsp_calculator.py:42-49 | Returns a fresh index equal to `ZipIndexAll` of the mapping, whose keys and sets the lemmas above characterise. |
| Slcsp.TheArea | slcsp_calculator.py:68 | `next(iter(rate_areas))` on a one-element set gives its only element. |
| Slcsp.OnlyElement | slcsp_calculator.py:68 | A one-element set that holds an area is exactly the set of that area. |
| Slcsp.Decide | slcsp_calculator.py:59-76 | The policy for one ZIP code. The warning is "ambiguous" exactly when there are several areas, and "no rate area" exactly when there are none. An "insufficient rates" blank names the only area, which has fewer than two rates. A quote comes only with one area holding two or more rates, and it is the rate at index 1. |
| Slcsp.RowFor | slcsp_calculator.py:64-76 | The row appended for one request carries its ZIP code, and its cell is blank exactly when a warning is logged for it. |
| Slcsp.Rows | slcsp_calculator.py:53-77 | One output row per request, in request order, each carrying its request's ZIP code. |
| Slcsp.Warnings | slcsp_calculator.py:58-73 | The warnings logged for the first requests are never more than the requests. |
| Slcsp.VivifyAll | slcsp_calculator.py:54-56 | Reading all requests from the index changes no ZIP code's areas. |
| Slcsp.VivifyAllEntries | slcsp_calculator.py:54-56 | After the reads, the index holds exactly its former ZIP codes plus the requested ones. Former entries are unchanged and new ones are empty. |
| Slcsp.CalculateSlcsp | slcsp_calculator.py:51-77 | The loop returns exactly the rows `Rows` specifies and the warnings `Warnings` specifies, both on the index as it was. It leaves the index vivified at every requested ZIP code. No error is raised for any input. |
| Slcsp.AnswerZip | slcsp_calculator.py:55-76 | One pass of the loop body gives the row and the warning for its ZIP code and vivifies only that ZIP code. |
| Slcsp.BlankUnlessOneArea | slcsp_calculator.py:59-65 | A ZIP code with no area, or with several, gets a blank. The warning is "no rate area" for none and "ambiguous" for several. |
| Slcsp.OneAreaAnswer | slcsp_calculator.py:67-76 | With exactly one area: fewer than two rates (including an area absent from the table) give a blank with an "insufficient rates" warning. Otherwise the answer is the rate at index 1. |
| Slcsp.WarningsCountBlanks | slcsp_calculator.py:58-76 | Exactly one warning is logged per blank row: the warning count equals the blank count over any prefix of the requests. |
| Slcsp.WarningsSameAreas | slcsp_calculator.py:56 | Two indexes giving every ZIP code the same areas give the same warnings. |
| Slcsp.RerunUnchanged | slcsp_calculator.py:56 | The empty sets that reads store are invisible. Answering requests again on the index a first run left behind gives identical rows and warnings. |
| Slcsp.Run | slcsp_calculator.py:100-102 | The three stages composed as `main` does. It fails exactly when some Silver rate does not read, before any row exists. Otherwise it gives one row per request, in order, computed on the ZIP index and the sorted Silver table. |
| Slcsp.RunAborts | slcsp_calculator.py:36 | The whole calculation fails exactly when some Silver plan's rate is not a number, and the error names the first such rate. |
| Slcsp.QuoteIsSecondLowest | slcsp_calculator.py:69-76 | For a ZIP code with one area, a rate is reported exactly when the area has two or more rates. The reported rate is one of them and is their second lowest. It is no lower than the lowest and no higher than any later rate of the sorted list. |
| Slcsp.ReportedRateIsSecondLowest | slcsp_calculator.py:51-77 | Every reported rate belongs to a ZIP code with exactly one rate area. It is one of that area's Silver rates in the catalogue, and it is their second lowest, the lowest rate repeated when the two lowest tie. |
| Slcsp.BlankIffFewRates | slcsp_calculator.py:69-74 | A ZIP code with one area gets a blank exactly when the catalogue has fewer than two Silver rates for that area. In particular this holds when the area has no Silver plan. |
| Slcsp.BlankUnlessListedOnce | slcsp_calculator.py:56-65 | A ZIP code the mapping lacks, or lists with several areas, gets a blank row whatever the catalogue holds. |
| Slcsp.RateCell | slcsp_calculator.py:64-76 | A cell is empty exactly for a blank. Otherwise it reads back as a number within half a cent of the rate. |
| WorkedCases.TiedLowestRates | slcsp_calculator.py:38-39 | Rates 34.00, 12.50, 12.50 and 27.00 sort to 12.50, 12.50, 27.00, 34.00. Both copies of 12.50 are kept, so index 1 is 12.50. |
| WorkedCases.TwelveFifty | slcsp_calculator.py:76 | 12.5 is written `12.50`. |
| WorkedCases.TwoHundredCell | slcsp_calculator.py:76 | 200 is written `200.00`. |
| WorkedCases.ReadTwoHundred | slcsp_calculator.py:36 | The cell `200.00` reads as 200. |
| WorkedCases.ReadOneFifty | slcsp_calculator.py:36 | The cell `150.00` reads as 150. |
| WorkedCases.ReadLetters | slcsp_calculator.py:36 | The cell `abc` does not read as a number. |
| WorkedCases.CatalogueRows | slcsp_calculator.py:34 | A lower-case `silver` row is not a Silver plan. |
| WorkedCases.CatalogueGrouping | slcsp_calculator.py:33-36 | The catalogue's two Silver rates are grouped in catalogue order, and the lower-case row is skipped. |
| WorkedCases.CatalogueSorted | slcsp_calculator.py:38-39 | The group is then sorted ascending. |
| WorkedCases.SortTwo | slcsp_calculator.py:38-39 | Sorting 200, 150 gives 150, 200. |
| WorkedCases.CatalogueTable | slcsp_calculator.py:30-40 | The catalogue with a lower-case row holding a non-numeric rate still succeeds, with its area's two rates ascending. |
| WorkedCases.WorkedIndex | slcsp_calculator.py:42-49 | A one-row mapping gives a one-entry index. |
| WorkedCases.WorkedRows | slcsp_calculator.py:51-77 | A listed ZIP code gets its area's second rate, and an unlisted one gets a blank. |
| WorkedCases.WorkedRun | slcsp_calculator.py:30-77 | The whole calculation on examples: ZIP 94102 in area CA 5 with Silver rates 200.00 and 150.00 gets 200. ZIP 00000, which the mapping lacks, gets a blank. |
| WorkedCases.MalformedRun | slcsp_calculator.py:36 | A Silver plan whose rate is `abc` aborts the whole calculation with that text. |

## Left out

- CSV reading and writing (`read_csv`, `write_csv`), the command line (`get_args`) and `main` are I/O. The rows and requests are sequences of records. `Slcsp.Run` composes the three stages as `main` does, without the files.
- A missing CSV column (`KeyError`) and a cell missing from a short row, which `csv.DictReader` gives as `None` and on which `float` raises `TypeError`, are not modelled. Every record has all its fields as strings. An empty cell is the empty string, which `ParseRate` rejects as `float` does.
- Logging is modelled as the list of `Slcsp.Warning` values that `CalculateSlcsp` returns. The message texts and log levels are not. The pipeline's info and error messages belong to the I/O left out above.
- Floating point is not modelled. Rates are exact reals, so binary rounding, overflow to infinity, the float representation of `:.2f` ties and signed zero are not captured. `float("-0")` is `-0.0` and `:.2f` writes it as `-0.00`; the model reads it as `0.0` and writes `0.00`. `FormatRate` rounds the exact decimal value half to even.
- Rates.ParseRate: reads signs, digits, one decimal point and an exponent. Surrounding whitespace, digit-group underscores, `inf`, `nan` and their variants, which Python's `float` also accepts, are read as malformed here. So are Unicode decimal digits other than ASCII `0`-`9`, such as Arabic-Indic or full-width digits, and Unicode whitespace, which `float` also accepts. Its own contract only says that a readable cell is non-empty. What it means is stated by `ParseFormatRate`, `ParseFormatRead` and the worked cases.
- SilverPlans.ParseSilverPlans: proved for every rate reader passed as the parameter `read`. The calculation uses `Rates.ParseRate`.
- Sorting.SortAscending: stands for Python's stable sort by its result. In the model, equal rates are equal reals, so the order among ties cannot be observed. In the source, `0.0` and `-0.0` compare equal, keep their input order and are written differently, which the model does not capture.
- Slcsp.CalculateSlcsp: its rows carry the rate as a number (`Option<real>`, `None` for a blank) rather than as the text cell the source appends. The `:.2f` text of line 76 comes from the separate `Slcsp.RateCell`, not from the loop.
- Slcsp.AnswerZip: holds the body of the loop of `calculate_slcsp`, and its early `return` stands for the source's `continue`.
- Slcsp.Rows, Slcsp.Warnings and Slcsp.ReportedRateIsSecondLowest are ghost. They use the element of a one-element set chosen by `TheArea`, where the method draws it from the set itself.
