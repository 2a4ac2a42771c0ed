/** The input rows the calculator reads, reduced to the columns it uses. */
module Records {

  /** A rate area: a state together with one of its rate-area identifiers. */
  datatype AreaKey = AreaKey(state: string, rateArea: string)

  /** One row of the plan catalogue: the rate is still the raw text of its cell. */
  datatype PlanRow = PlanRow(state: string, metalLevel: string, rate: string, rateArea: string)
  {
    function Key(): AreaKey {
      AreaKey(state, rateArea)
    }
  }

  /** One row of the ZIP-code mapping. */
  datatype ZipRow = ZipRow(zipcode: string, state: string, rateArea: string)
  {
    function Key(): AreaKey {
      AreaKey(state, rateArea)
    }
  }
}
