/** The two currencies every table and every fund code comes in. */
module Currencies {

  datatype Currency = CLP | USD

  /** `moneda = 'CLP' if df is pesos_df else 'USD'`: the identity test against the peso table. */
  function CurrencyOf(isPesoTable: bool): (c: Currency)
    ensures c == CLP <==> isPesoTable
  {
    if isPesoTable then CLP else USD
  }
}
