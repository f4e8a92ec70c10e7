/** The upstream tariff records and the EVCC-shaped hourly record the service derives from them. */
module Models {
  import opened Wrappers
  import opened DateTimeExtension

  /** One priced period of a product (`TariffData`); amounts are exact decimals. */
  datatype TariffData = TariffData(
    startTime: DateTime,
    endTime: DateTime,
    isMissingPeriod: bool,
    cheapestOfDay: bool,
    amountInclVat: real,
    amountExclVat: real)

  /** One product line of the API response (`FlexTariffData`); `product` is the code, e.g. "E" or "G". */
  datatype FlexTariffData = FlexTariffData(
    product: Option<string>,
    name: Option<string>,
    productCode: Option<string>,
    tariffData: seq<TariffData>)

  /** One entry of the EVCC view (`EvccApiHourlyData`). */
  datatype EvccApiHourlyData = EvccApiHourlyData(start: DateTime, end: DateTime, value: real)
}
