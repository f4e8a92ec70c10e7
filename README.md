# VattenfallDynamicPriceApi tariff cache — Dafny model

This project models the core of VattenfallDynamicPriceApi, a small service that publishes
Vattenfall's dynamic electricity and gas tariffs. The core is `VattenfallDataService` and
one `DateTime` extension. It covers:

- **Current-tariff lookup** (`GetCurrentTariffForProductType`). It takes the first cached
  product with the requested code. It returns the VAT-inclusive amount of the first period
  whose `[StartTime, EndTime]` contains "now", with both ends inclusive. With no such period
  it returns the highest amount of the product. With no such product it returns the
  sentinel 999.
- **Refresh step** (`UpdateDataAsync`). It resolves credentials and requests
  `{baseUrl}/DynamicTariff`. It replaces `Data` with the response. From the first `"E"`
  product it derives the EVCC view: one entry per period, with times relabelled by
  `ToUtcKeepTimeAsIs`, stably sorted by start. The view replaces `EvccData`, which is left
  as it was when there is no `"E"` product.
- **Credential resolution** (`TryGetApiUrlAndKeyAsync`, `GetApiUrlAndKeyAsync`). It has a
  short-circuit to the known pair. Otherwise it scrapes the script URL from the contract
  page and extracts the quoted base URL and key from that script. The base URL loses its
  trailing `/`. Blank results are rejected. A success overwrites the known pair, and any
  failure falls back to the known pair.
- **`ToUtcKeepTimeAsIs`**. It rebuilds a timestamp from its year, month, day, hour, minute
  and second, tagged UTC.

Files:

- `Wrappers.dfy`: `Option` and `Result`. They model null references and thrown exceptions.
- `DateTimeExtension.dfy`: a `DateTime` as ticks plus a kind. It holds the Gregorian
  calendar arithmetic of `DateTime` (day number to year/month/day and back, with both
  round trips proved) and `ToUtcKeepTimeAsIs`.
- `Linq.dfy`: the LINQ operators the service uses: `FirstOrDefault`, `Max` and the
  stable `OrderBy`. `Select` is `SelectEvcc` in `VattenfallDataService.dfy`.
- `Models.dfy`: the `TariffData`, `FlexTariffData` and `EvccApiHourlyData` records.
- `ApiCredentials.dfy`: the three regular expressions, `TrimEnd`, `IsNullOrWhiteSpace`,
  resolution, and the settings object whose known pair is overwritten.
- `VattenfallDataService.dfy`: the lookup, the EVCC view, and the `DataService` class with
  its two fields `data` and `evccData`.

Modelling choices:

- A `DateTime` is its tick count (100 ns units since 0001-01-01, at most `DateTime.MaxValue`)
  plus its `Kind`. Comparisons and `OrderBy` use the ticks only, as .NET does.
- C# `decimal` amounts are Dafny `real` values, which are exact.
- The EVCC `value` is `AmountInclVat` unscaled, as this revision of the code has it.
- "Now" is a parameter of the lookup.
- The network is modelled by parameters:
  - `web: string -> Fetch` answers `GetStringAsync` on any URL.
  - `api: (string, string) -> TariffResponse` answers the tariff request for an endpoint
    and a key. Its answer is the deserialized body: `None` for a JSON `null`, or a failure.
  - `wellFormed: string -> bool` stands for `Uri.IsWellFormedUriString(_, UriKind.Absolute)`.
- The script-URL regular expression is modelled exactly. Its free segment `[^/]*` must be
  the whole run of non-`/` characters, so leftmost matching needs no backtracking.
- `Data` is nullable. A JSON `null` body sets it to `None`, and the next line throws. The
  model returns `Threw(NullResponse)` with `evccData` unchanged.
- `Max` over an empty period list throws in C#. The lookup returns `Failure(NoTariffPeriods)`.

Facts about the code that shape the model:

- The code has no guard against overlapping refreshes.
- `CacheDuration` is a fixed 60 s. It is not read from settings.
- The EVCC value is `AmountInclVat`, unscaled.
- The lookup returns 999 whenever no product matches. The converse does not hold, because
  a real tariff amount can also be 999. So only that direction is proved.

## Model

| member | source | states |
|---|---|---|
| `DateTimeExtension.ToUtcKeepTimeAsIs` | src/VattenfallDynamicPriceApi/Extensions/DateTimeExtension.cs:5-6 | the result is tagged UTC and its ticks are the input's ticks cut down to a whole second: no offset shift |
| `DateTimeExtension.ToUtcKeepsClockFields` | src/VattenfallDynamicPriceApi/Extensions/DateTimeExtension.cs:6 | the result has the same year, month, day, hour, minute and second as the input |
| `DateTimeExtension.ToUtcIgnoresKind` | src/VattenfallDynamicPriceApi/Extensions/DateTimeExtension.cs:6 | the input's kind does not affect the result, and the result is within one second at or before the input |
| `DateTimeExtension.ToUtcIdempotent` | src/VattenfallDynamicPriceApi/Extensions/DateTimeExtension.cs:6 | applying the conversion twice equals applying it once |
| `DateTimeExtension.ToUtcMonotone` | src/VattenfallDynamicPriceApi/Extensions/DateTimeExtension.cs:6 | `a <= b` implies `ToUtcKeepTimeAsIs(a) <= ToUtcKeepTimeAsIs(b)` |
| `DateTimeExtension.CivilFromDays` | src/VattenfallDynamicPriceApi/Extensions/DateTimeExtension.cs:6 | the year/month/day read from a day number form a valid date in years 1 to 9999, and converting that date back gives the same day number |
| `DateTimeExtension.NewDateTime` | src/VattenfallDynamicPriceApi/Extensions/DateTimeExtension.cs:6 | a timestamp built from a valid date and clock fields has the requested kind and reads back exactly that date (day number, year, month, day) and that hour, minute and second |
| `DateTimeExtension.CivilRoundTrip` | src/VattenfallDynamicPriceApi/Extensions/DateTimeExtension.cs:6 | reading the year, month and day of a valid date's day number gives that date back |
| `DateTimeExtension.DaysFromCivilInjective` | src/VattenfallDynamicPriceApi/Extensions/DateTimeExtension.cs:6 | two valid dates with the same day number are the same date |
| `Linq.FirstIndex` | src/VattenfallDynamicPriceApi/Services/VattenfallDataService.cs:31 | `FirstOrDefault`: the found element satisfies the predicate and none before it does; nothing is found exactly when no element satisfies it |
| `Linq.FirstIndexIs` | src/VattenfallDynamicPriceApi/Services/VattenfallDataService.cs:39 | the first element satisfying the predicate is the one `FirstOrDefault` returns |
| `Linq.Max` | src/VattenfallDynamicPriceApi/Services/VattenfallDataService.cs:43 | `Max` is at least every element's value and equals one of them; it is undefined (throws) exactly on an empty source |
| `Linq.OrderBy` | src/VattenfallDynamicPriceApi/Services/VattenfallDataService.cs:87 | the result is sorted by key, is a permutation of the source, and keeps the relative order of elements with equal keys |
| `Linq.StableSortUnique` | src/VattenfallDynamicPriceApi/Services/VattenfallDataService.cs:87 | two sorted sequences with the same per-key order are equal, so the contract of `OrderBy` fixes its result |
| `ApiCredentials.IndexOf` | src/VattenfallDynamicPriceApi/Services/VattenfallDataService.cs:166-170 | the leftmost occurrence of the literal part of a pattern, or none when it occurs nowhere |
| `ApiCredentials.TakeUntil` | src/VattenfallDynamicPriceApi/Services/VattenfallDataService.cs:166-170 | `[^"]*` matches the longest prefix free of the excluded character |
| `ApiCredentials.IsNullOrWhiteSpace` | src/VattenfallDynamicPriceApi/Services/VattenfallDataService.cs:136 | the empty string (a group that did not match) is blank, and any character outside the Unicode whitespace set makes a string non-blank |
| `ApiCredentials.ExtractQuoted` | src/VattenfallDynamicPriceApi/Services/VattenfallDataService.cs:143 | the group value is the quote-free text after the first `name:"`, ending at a quote or at the end; it is "" when the pattern does not occur |
| `ApiCredentials.ExtractQuotedAt` | src/VattenfallDynamicPriceApi/Services/VattenfallDataService.cs:166-170 | a quote-free value right after the first occurrence of the pattern, ending at a quote or the end, is exactly the group value |
| `ApiCredentials.TrimEnd` | src/VattenfallDynamicPriceApi/Services/VattenfallDataService.cs:143 | `TrimEnd('/')` is a prefix of its input that does not end in `/`, and everything it removed is `/` |
| `ApiCredentials.ScriptUrlAt` | src/VattenfallDynamicPriceApi/Services/VattenfallDataService.cs:163 | a match of the script regular expression is the CDN prefix, one segment without `/`, then `/epi-es2015.js` |
| `ApiCredentials.FirstScriptUrl` | src/VattenfallDynamicPriceApi/Services/VattenfallDataService.cs:135 | the match returned is the leftmost one; no match means none at any position |
| `ApiCredentials.ScriptUrl` | src/VattenfallDynamicPriceApi/Services/VattenfallDataService.cs:135 | the `url` group is "" exactly when the page holds no match, and otherwise has the shape of a script URL |
| `ApiCredentials.ScriptUrlOfTag` | src/VattenfallDynamicPriceApi/Services/VattenfallDataService.cs:163 | a page that starts with the script tag yields that script's URL |
| `ApiCredentials.ParseScript` | src/VattenfallDynamicPriceApi/Services/VattenfallDataService.cs:142-152 | the script is accepted exactly when the base URL less its trailing slashes and the key are both non-blank; an accepted pair is non-blank with no trailing `/`; a rejection is `BaseUrlNotFound` or `KeyNotFound` |
| `ApiCredentials.ParseScriptOutcome` | src/VattenfallDynamicPriceApi/Services/VattenfallDataService.cs:143-152 | a blank base URL gives `BaseUrlNotFound`; a non-blank base URL and a blank key give `KeyNotFound`; both non-blank give exactly the extracted pair |
| `ApiCredentials.ScriptValues` | src/VattenfallDynamicPriceApi/Services/VattenfallDataService.cs:166-170 | in a script that is exactly the base-URL entry `dynamicTariffsBaseApiURL:"base"` followed by the key entry, where the base URL is quote-free and contains no `o` (so no key pattern can start inside it) and the key is quote-free, each regular expression finds its own value |
| `ApiCredentials.Resolve` | src/VattenfallDynamicPriceApi/Services/VattenfallDataService.cs:132-152 | the result is `PageUnavailable` exactly when the scrape page cannot be fetched, and a success is a non-blank pair whose base URL does not end in `/` |
| `ApiCredentials.ResolveReachesScript` | src/VattenfallDynamicPriceApi/Services/VattenfallDataService.cs:132-142 | once the page is fetched, its script URL is non-blank and well formed and the script is fetched, the result is what the script text gives |
| `ApiCredentials.ResolvedFromPageScript` | src/VattenfallDynamicPriceApi/Services/VattenfallDataService.cs:132-142 | success requires a fetched page, a non-blank and well-formed script URL on it, and a fetched script, and the pair comes from that script |
| `ApiCredentials.ParsedIsValid` | src/VattenfallDynamicPriceApi/Services/VattenfallDataService.cs:143-152 | an accepted base URL and key are non-blank and contain no quote, and the base URL does not end in `/` |
| `ApiCredentials.ParsedBaseUrlFromScript` | src/VattenfallDynamicPriceApi/Services/VattenfallDataService.cs:143-145 | the accepted base URL is the quoted value after the first `dynamicTariffsBaseApiURL:"` less its trailing slashes |
| `ApiCredentials.ParsedKeyFromScript` | src/VattenfallDynamicPriceApi/Services/VattenfallDataService.cs:150-152 | the accepted key is the quoted value after the first `ocpApimSubscriptionFeaturesDynamicTariffsKey:"` |
| `ApiCredentials.ResolveAcceptsScrapedPair` | src/VattenfallDynamicPriceApi/Services/VattenfallDataService.cs:132-160 | success is reachable: when the page is exactly the script tag, its script URL is judged well formed, and the script is exactly the base-URL entry then the key entry (base URL quote-free and without `o`, key quote-free, both non-blank after trimming), resolution gives exactly that base URL less its trailing slashes and that key |
| `ApiCredentials.Settings.constructor` | src/VattenfallDynamicPriceApi/Models/Application/SettingsData.cs:5-11 | the defaults: dynamic resolution on, the public contract page as scrape URL, an empty known pair |
| `ApiCredentials.GetApiUrlAndKey` | src/VattenfallDynamicPriceApi/Services/VattenfallDataService.cs:121-161 | the result is the resolution from the configured page; a success overwrites the known pair with it, and a failure leaves the pair alone |
| `ApiCredentials.TryGetApiUrlAndKey` | src/VattenfallDynamicPriceApi/Services/VattenfallDataService.cs:105-119 | it returns the known pair under `UseKnownValues` or on failure, and the resolved pair otherwise; afterwards the stored known pair equals what it returned |
| `ApiCredentials.ResolveOrFallback` | src/VattenfallDynamicPriceApi/Services/VattenfallDataService.cs:105-119 | under `UseKnownValues` the known pair; otherwise either the known pair or a pair that dynamic resolution returned |
| `ApiCredentials.KnownValuesShortCircuit` | src/VattenfallDynamicPriceApi/Services/VattenfallDataService.cs:107-108 | with `UseKnownValues` the known pair is returned whatever the network answers |
| `ApiCredentials.ResolvedPairReturned` | src/VattenfallDynamicPriceApi/Services/VattenfallDataService.cs:110-112 | without `UseKnownValues`, a successful resolution is returned |
| `ApiCredentials.FallbackOnFailure` | src/VattenfallDynamicPriceApi/Services/VattenfallDataService.cs:114-118 | any failure of dynamic resolution returns the current known pair |
| `VattenfallDataService.CurrentTariff` | src/VattenfallDynamicPriceApi/Services/VattenfallDataService.cs:29-47 | the lookup fails only when the first product with the code has no periods; a success is the sentinel 999 or the VAT-inclusive amount of some period of the first product with the code |
| `VattenfallDataService.UnknownProductIsUnavailable` | src/VattenfallDynamicPriceApi/Services/VattenfallDataService.cs:31-35 | with no product of the code (or null data), the lookup returns 999 |
| `VattenfallDataService.CoveringPeriodGivesItsAmount` | src/VattenfallDynamicPriceApi/Services/VattenfallDataService.cs:31-41 | if the first product of the code has a period with `StartTime <= now <= EndTime`, the lookup returns the amount of the first such period |
| `VattenfallDataService.UncoveredTimeGivesHighestAmount` | src/VattenfallDynamicPriceApi/Services/VattenfallDataService.cs:43-46 | if no period of that product contains `now`, the lookup returns a value at least every period's amount and equal to one of them |
| `VattenfallDataService.ProductWithoutPeriodsFails` | src/VattenfallDynamicPriceApi/Services/VattenfallDataService.cs:43 | a matching product without periods makes the lookup fail, as `Max` throws |
| `VattenfallDataService.SinglePeriodExample` | src/VattenfallDynamicPriceApi/Services/VattenfallDataService.cs:29-47 | one "E" period 00:00 to 01:00 at 0.25 gives 0.25 at 00:30, and the gas lookup gives 999 |
| `VattenfallDataService.ToEvcc` | src/VattenfallDynamicPriceApi/Services/VattenfallDataService.cs:81-86 | the entry's value is the unscaled `AmountInclVat`, and its times are the period's times converted by `ToUtcKeepTimeAsIs`: tagged UTC and within the second at or before the period's times |
| `VattenfallDataService.SelectEvcc` | src/VattenfallDynamicPriceApi/Services/VattenfallDataService.cs:81-86 | `Select` gives one entry per period, in period order |
| `VattenfallDataService.EvccView` | src/VattenfallDynamicPriceApi/Services/VattenfallDataService.cs:74-88 | there is no view exactly when no product has code "E", and a view is sorted by start |
| `VattenfallDataService.EvccViewSource` | src/VattenfallDynamicPriceApi/Services/VattenfallDataService.cs:74-88 | the view is built from the first "E" product only |
| `VattenfallDataService.EvccViewOfElectricity` | src/VattenfallDynamicPriceApi/Services/VattenfallDataService.cs:81-88 | the view has one entry per period, is sorted by start, is a permutation of the mapped periods, and keeps the order of periods with equal starts |
| `VattenfallDataService.EvccViewEntries` | src/VattenfallDynamicPriceApi/Services/VattenfallDataService.cs:81-86 | every entry carries some period's VAT-inclusive amount, with that period's times converted by `ToUtcKeepTimeAsIs` and tagged UTC |
| `VattenfallDataService.NoElectricityNoView` | src/VattenfallDynamicPriceApi/Services/VattenfallDataService.cs:74-79 | with no "E" product there is no new view |
| `VattenfallDataService.DataService.constructor` | src/VattenfallDynamicPriceApi/Services/VattenfallDataService.cs:15-17 | both properties start as empty arrays, and the (empty) view is sorted |
| `VattenfallDataService.DataService.UpdateData` | src/VattenfallDynamicPriceApi/Services/VattenfallDataService.cs:69-89 | it keeps `evccData` sorted and requests with the resolved or fallback pair; a failed request changes neither property; a response replaces `data`; `evccData` becomes the view of that response, or stays as it was when there is no "E" product or the body is null |
| `VattenfallDataService.DataService.GetCurrentElectricityTariff` | src/VattenfallDynamicPriceApi/Services/VattenfallDataService.cs:49-50 | the lookup of code "E" over the cached data |
| `VattenfallDataService.DataService.GetCurrentGasTariff` | src/VattenfallDynamicPriceApi/Services/VattenfallDataService.cs:52-53 | the lookup of code "G" over the cached data |

## Left out

- HTTP fetching, gzip/deflate decompression, request headers and timeouts
  (`GetFlexTariffDataAsync`, the `HttpClient` set-up in `GetApiUrlAndKeyAsync`). These are
  network I/O. Their results are the parameters `web` and `api`.
- JSON deserialization through the generated serializer context. This is a library call.
  `api` yields its result directly. Null elements inside the array and a null
  `tariffData` list are not modelled.
- `Uri.IsWellFormedUriString` is foreign library behaviour. It is the parameter `wellFormed`.
- `TariffData.Details` and `FlexTariffData.AverageTariffs` are left out. No core operation
  reads them.
- C# `decimal` range and its 28-digit precision are not modelled: amounts are unbounded reals.
- `InitializeAsync`, `RefreshTimerElapsed`, the `Timer` with its fixed 60 s period, and
  `Dispose`/`DisposeAsync` are scheduling and concurrency. The code has no guard to verify.
  `InitializeAsync` is one `UpdateData` call followed by arming the timer.
- Concurrent readers are not modelled. Nor is a settings object swapped out by the settings
  provider while a refresh runs. The model reads both properties between whole method calls.
- `SettingsProvider` covers file and environment loading, reload tokens and its one-second
  debounce. This is configuration plumbing. Settings are the plain `Settings` class.
- Logging is left out. It has no effect on any result.
- `DateTime.Now` is the `now` parameter.
- Both `Program.cs` files cover startup, endpoint routing and logger set-up.
