/**
 * The tariff cache: the current-tariff lookup over the cached product array, the EVCC
 * view derived from the electricity product, and the refresh step that replaces both.
 */
module VattenfallDataService {
  import opened Wrappers
  import opened DateTimeExtension
  import opened Models
  import opened Linq
  import opened ApiCredentials

  /** Returned when no product with the requested code is cached: the sentinel 999. */
  const UnavailableTariff: real := 999.0

  const ElectricityCode: string := "E"
  const GasCode: string := "G"
  const TariffEndpoint: string := "/DynamicTariff"

  /** The lookup's exception: `Max` over a product without periods throws. */
  datatype LookupError = NoTariffPeriods

  predicate HasCode(d: FlexTariffData, code: string) {
    d.product == Some(code)
  }

  /** `StartTime <= now && EndTime >= now`: both ends inclusive. */
  predicate Covers(t: TariffData, now: DateTime) {
    AtOrBefore(t.startTime, now) && AtOrBefore(now, t.endTime)
  }

  function WithCode(code: string): FlexTariffData -> bool {
    d => HasCode(d, code)
  }

  function CoveringNow(now: DateTime): TariffData -> bool {
    t => Covers(t, now)
  }

  predicate IsFirstWithCode(products: seq<FlexTariffData>, code: string, i: int) {
    0 <= i < |products| && HasCode(products[i], code) && forall k :: 0 <= k < i ==> !HasCode(products[k], code)
  }

  predicate IsFirstCovering(periods: seq<TariffData>, now: DateTime, j: int) {
    0 <= j < |periods| && Covers(periods[j], now) && forall k :: 0 <= k < j ==> !Covers(periods[k], now)
  }

  /** The products `Data?.FirstOrDefault(...)` searches: none when `Data` is null. */
  function Products(data: Option<seq<FlexTariffData>>): seq<FlexTariffData> {
    if data.Some? then data.value else []
  }

  function Amount(t: TariffData): real { t.amountInclVat }

  // ---------------------------------------------------------------------------
  // Current-tariff lookup
  // ---------------------------------------------------------------------------

  /** `GetCurrentTariffForProductType`, with the clock reading `now` passed in. */
  function CurrentTariff(data: Option<seq<FlexTariffData>>, productType: string, now: DateTime): (r: Result<real, LookupError>)
    ensures r.Failure? ==> exists i :: IsFirstWithCode(Products(data), productType, i) && Products(data)[i].tariffData == []
    ensures r.Success? ==> || r.value == UnavailableTariff
                           || exists i, k :: IsFirstWithCode(Products(data), productType, i)
                                             && 0 <= k < |Products(data)[i].tariffData|
                                             && Products(data)[i].tariffData[k].amountInclVat == r.value
  {
    var products := Products(data);
    match FirstIndex(products, WithCode(productType))
    case None => Success(UnavailableTariff)
    case Some(i) =>
      assert IsFirstWithCode(products, productType, i);
      var periods := products[i].tariffData;
      match FirstIndex(periods, CoveringNow(now))
      case Some(j) => Success(periods[j].amountInclVat)
      case None =>
        match Max(periods, Amount)
        case Some(highest) =>
          assert exists k :: 0 <= k < |periods| && Amount(periods[k]) == highest;
          Success(highest)
        case None => Failure(NoTariffPeriods)
  }

  /** No product with the code (or no data at all): the sentinel 999. */
  lemma UnknownProductIsUnavailable(data: Option<seq<FlexTariffData>>, productType: string, now: DateTime)
    requires forall k :: 0 <= k < |Products(data)| ==> !HasCode(Products(data)[k], productType)
    ensures CurrentTariff(data, productType, now) == Success(UnavailableTariff)
  {
  }

  /** The first product with the code has a period containing `now`: the amount of the first such period. */
  lemma CoveringPeriodGivesItsAmount(data: Option<seq<FlexTariffData>>, productType: string, now: DateTime, i: nat, j: nat)
    requires IsFirstWithCode(Products(data), productType, i)
    requires IsFirstCovering(Products(data)[i].tariffData, now, j)
    ensures CurrentTariff(data, productType, now) == Success(Products(data)[i].tariffData[j].amountInclVat)
  {
    var products := Products(data);
    FirstIndexIs(products, WithCode(productType), i);
    var periods := products[i].tariffData;
    FirstIndexIs(periods, CoveringNow(now), j);
  }

  /** No period of the first product with the code contains `now`: the highest amount among its periods. */
  lemma UncoveredTimeGivesHighestAmount(data: Option<seq<FlexTariffData>>, productType: string, now: DateTime, i: nat)
    requires IsFirstWithCode(Products(data), productType, i)
    requires var periods := Products(data)[i].tariffData;
      |periods| > 0 && forall k :: 0 <= k < |periods| ==> !Covers(periods[k], now)
    ensures var r := CurrentTariff(data, productType, now);
      var periods := Products(data)[i].tariffData;
      && r.Success?
      && (forall k :: 0 <= k < |periods| ==> periods[k].amountInclVat <= r.value)
      && (exists k :: 0 <= k < |periods| && periods[k].amountInclVat == r.value)
  {
    var products := Products(data);
    FirstIndexIs(products, WithCode(productType), i);
    var periods := products[i].tariffData;
    assert FirstIndex(periods, CoveringNow(now)).None?;
    var m := Max(periods, Amount);
    assert forall k :: 0 <= k < |periods| ==> Amount(periods[k]) == periods[k].amountInclVat;
  }

  /** The first product with the code has no periods at all: `Max` throws. */
  lemma ProductWithoutPeriodsFails(data: Option<seq<FlexTariffData>>, productType: string, now: DateTime, i: nat)
    requires IsFirstWithCode(Products(data), productType, i)
    requires Products(data)[i].tariffData == []
    ensures CurrentTariff(data, productType, now) == Failure(NoTariffPeriods)
  {
    var products := Products(data);
    FirstIndexIs(products, WithCode(productType), i);
  }

  /**
   * One "E" product with one period 2024-01-01 00:00 to 01:00 at 0.25: at 00:30 the
   * electricity tariff is 0.25, and the gas tariff is the sentinel.
   */
  lemma SinglePeriodExample()
    ensures
      var start := NewDateTime(Date(2024, 1, 1), 0, 0, 0, Unspecified);
      var end := NewDateTime(Date(2024, 1, 1), 1, 0, 0, Unspecified);
      var now := NewDateTime(Date(2024, 1, 1), 0, 30, 0, Local);
      var data := Some([FlexTariffData(Some("E"), None, None, [TariffData(start, end, false, false, 0.25, 0.20)])]);
      && CurrentTariff(data, ElectricityCode, now) == Success(0.25)
      && CurrentTariff(data, GasCode, now) == Success(UnavailableTariff)
  {
    var start := NewDateTime(Date(2024, 1, 1), 0, 0, 0, Unspecified);
    var end := NewDateTime(Date(2024, 1, 1), 1, 0, 0, Unspecified);
    var now := NewDateTime(Date(2024, 1, 1), 0, 30, 0, Local);
    var data := Some([FlexTariffData(Some("E"), None, None, [TariffData(start, end, false, false, 0.25, 0.20)])]);
    assert Covers(Products(data)[0].tariffData[0], now);
    CoveringPeriodGivesItsAmount(data, ElectricityCode, now, 0, 0);
    UnknownProductIsUnavailable(data, GasCode, now);
  }

  // ---------------------------------------------------------------------------
  // EVCC view
  // ---------------------------------------------------------------------------

  /** The EVCC entry of one period: both times relabelled UTC, value the VAT-inclusive amount. */
  function ToEvcc(t: TariffData): (e: EvccApiHourlyData)
    ensures e.value == t.amountInclVat
    ensures e.start == ToUtcKeepTimeAsIs(t.startTime) && e.end == ToUtcKeepTimeAsIs(t.endTime)
    ensures e.start.kind == Utc && e.start.ticks <= t.startTime.ticks < e.start.ticks + TicksPerSecond
    ensures e.end.kind == Utc && e.end.ticks <= t.endTime.ticks < e.end.ticks + TicksPerSecond
  {
    EvccApiHourlyData(ToUtcKeepTimeAsIs(t.startTime), ToUtcKeepTimeAsIs(t.endTime), t.amountInclVat)
  }

  /** `Select` of `ToEvcc` over a product's periods. */
  function SelectEvcc(periods: seq<TariffData>): (r: seq<EvccApiHourlyData>)
    ensures |r| == |periods| && forall k :: 0 <= k < |periods| ==> r[k] == ToEvcc(periods[k])
  {
    seq(|periods|, k requires 0 <= k < |periods| => ToEvcc(periods[k]))
  }

  /** The `OrderBy` key: the start time's ticks, as `DateTime` comparison uses them. */
  function StartKey(e: EvccApiHourlyData): int { e.start.ticks }

  /**
   * The EVCC view `UpdateDataAsync` derives from a fetched product array: the periods of
   * the first "E" product mapped to EVCC entries and stably sorted by start; `None` when
   * there is no "E" product.
   */
  function EvccView(products: seq<FlexTariffData>): (r: Option<seq<EvccApiHourlyData>>)
    ensures r.None? <==> forall k :: 0 <= k < |products| ==> !HasCode(products[k], ElectricityCode)
    ensures r.Some? ==> SortedBy(r.value, StartKey)
  {
    match FirstIndex(products, WithCode(ElectricityCode))
    case None => None
    case Some(i) => Some(OrderBy(SelectEvcc(products[i].tariffData), StartKey))
  }

  /** The view is taken from the first "E" product. */
  lemma EvccViewSource(products: seq<FlexTariffData>, i: nat)
    requires IsFirstWithCode(products, ElectricityCode, i)
    ensures EvccView(products) == Some(OrderBy(SelectEvcc(products[i].tariffData), StartKey))
  {
    FirstIndexIs(products, WithCode(ElectricityCode), i);
  }

  /**
   * The view of the first "E" product has one entry per period, is sorted by start, is a
   * permutation of the mapped periods, and periods starting at the same tick keep their order.
   */
  lemma EvccViewOfElectricity(products: seq<FlexTariffData>, i: nat)
    requires IsFirstWithCode(products, ElectricityCode, i)
    ensures EvccView(products).Some?
    ensures var view, mapped := EvccView(products).value, SelectEvcc(products[i].tariffData);
      && |view| == |products[i].tariffData|
      && SortedBy(view, StartKey)
      && multiset(view) == multiset(mapped)
      && forall key :: WithKey(view, StartKey, key) == WithKey(mapped, StartKey, key)
  {
    EvccViewSource(products, i);
    var mapped := SelectEvcc(products[i].tariffData);
    var view := OrderBy(mapped, StartKey);
    assert |view| == |multiset(view)| == |multiset(mapped)| == |mapped|;
  }

  /**
   * Each entry of the view comes from a period of the first "E" product: its value is that
   * period's VAT-inclusive amount and its times are the period's, cut to whole seconds and tagged UTC.
   */
  lemma EvccViewEntries(products: seq<FlexTariffData>, i: nat, e: EvccApiHourlyData)
    requires IsFirstWithCode(products, ElectricityCode, i)
    requires EvccView(products).Some? && e in EvccView(products).value
    ensures var periods := products[i].tariffData;
      exists k :: 0 <= k < |periods|
        && e.value == periods[k].amountInclVat
        && e.start == ToUtcKeepTimeAsIs(periods[k].startTime) && e.start.kind == Utc
        && e.end == ToUtcKeepTimeAsIs(periods[k].endTime) && e.end.kind == Utc
  {
    EvccViewSource(products, i);
    var periods := products[i].tariffData;
    var mapped := SelectEvcc(periods);
    assert e in multiset(OrderBy(mapped, StartKey));
    assert e in multiset(mapped);
    var k :| 0 <= k < |mapped| && mapped[k] == e;
    assert e == ToEvcc(periods[k]);
  }

  /** Without an "E" product there is no view. */
  lemma NoElectricityNoView(products: seq<FlexTariffData>)
    requires forall k :: 0 <= k < |products| ==> !HasCode(products[k], ElectricityCode)
    ensures EvccView(products).None?
  {
  }

  // ---------------------------------------------------------------------------
  // The service object
  // ---------------------------------------------------------------------------

  /**
   * What `GetFlexTariffDataAsync` yields for one request: the deserialized body (`None`
   * for a JSON `null`), or an exception (failure status, transport error, malformed JSON).
   */
  datatype TariffResponse = Tariffs(body: Option<seq<FlexTariffData>>) | RequestFailed

  /** Why `UpdateDataAsync` throws: the request failed, or the body was `null` and the next statement calls `FirstOrDefault` on it. */
  datatype RefreshError = FetchFailed | NullResponse

  /** How `UpdateDataAsync` ends: both properties replaced, `EvccData` kept for lack of an "E" product, or an exception. */
  datatype RefreshOutcome = Refreshed | NoElectricityData | Threw(error: RefreshError)

  /** The cached state of `VattenfallDataService`: the raw product array and the EVCC view. */
  class DataService {
    var data: Option<seq<FlexTariffData>>
    var evccData: seq<EvccApiHourlyData>

    /** The published view is always sorted by start time. */
    ghost predicate Valid()
      reads this
    {
      SortedBy(evccData, StartKey)
    }

    /** Both properties start out as empty arrays. */
    constructor ()
      ensures Valid() && data == Some([]) && evccData == []
    {
      data := Some([]);
      evccData := [];
    }

    /**
     * `UpdateDataAsync`: resolve credentials, request `{baseUrl}/DynamicTariff` with the key
     * (`api` answers it), replace `Data` with the response, and replace `EvccData` with the
     * view of its first "E" product when there is one.
     */
    method UpdateData(settings: Settings, web: string -> Fetch, wellFormed: string -> bool,
                      api: (string, string) -> TariffResponse)
      returns (outcome: RefreshOutcome)
      requires Valid()
      modifies this, settings`knownApiBaseUrl, settings`knownApiKey
      ensures Valid()
      ensures var c := ResolveOrFallback(old(settings.useKnownValues), old(settings.Known()),
                                         old(settings.scrapePageUrl), web, wellFormed);
        && settings.Known() == c
        && match api(c.apiBaseUrl + TariffEndpoint, c.apiKey)
           case RequestFailed =>
             outcome == Threw(FetchFailed) && data == old(data) && evccData == old(evccData)
           case Tariffs(None) =>
             outcome == Threw(NullResponse) && data == None && evccData == old(evccData)
           case Tariffs(Some(products)) =>
             && data == Some(products)
             && match EvccView(products)
                case None => outcome == NoElectricityData && evccData == old(evccData)
                case Some(view) => outcome == Refreshed && evccData == view
    {
      var c := TryGetApiUrlAndKey(settings, web, wellFormed);
      var response := api(c.apiBaseUrl + TariffEndpoint, c.apiKey);
      match response {
        case RequestFailed =>
          return Threw(FetchFailed);
        case Tariffs(body) =>
          data := body;
          if body.None? {
            return Threw(NullResponse);
          }
          var view := EvccView(body.value);
          if view.None? {
            return NoElectricityData;
          }
          evccData := view.value;
          outcome := Refreshed;
      }
    }

    /** `GetCurrentElectricityTariff`, at the clock reading `now`. */
    method GetCurrentElectricityTariff(now: DateTime) returns (r: Result<real, LookupError>)
      ensures r == CurrentTariff(data, ElectricityCode, now)
    {
      r := CurrentTariff(data, ElectricityCode, now);
    }

    /** `GetCurrentGasTariff`, at the clock reading `now`. */
    method GetCurrentGasTariff(now: DateTime) returns (r: Result<real, LookupError>)
      ensures r == CurrentTariff(data, GasCode, now)
    {
      r := CurrentTariff(data, GasCode, now);
    }
  }
}
