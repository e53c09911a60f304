# B2B travel request parser — a Dafny model

`script.py` is the core of a small hotel-availability gateway. It has two
parts:

- a **request validator** (`parse_xml`) reads an `AvailRQ` search request and
  accepts or rejects it;
- a **price calculator** (`calculate_price`) turns a supplier's net price into
  a selling price.

The validator applies its rules in a fixed order and raises at the first one
that fails:

1. timeout present, all digits, converted by `int()`, and at least 1000 ms;
2. the five required fields present;
3. language normalised;
4. options quota read with `int()` and capped at 50;
5. credentials element carries `password`, `username` and `CompanyID`;
6. both dates read with `strptime("%d/%m/%Y")`;
7. start date no earlier than today plus two days, and a stay of at least
   three nights;
8. currency and nationality normalised.

The calculator works as follows. It looks up `EXCHANGE_RATES[quoted][requested]`
and raises for a pair that is not in the table. Otherwise it marks up the net
price by a percentage, converts it, and rounds the result once to hundredths.

The model has one module per file:

| module | file | models |
|---|---|---|
| `Wrappers` | `wrappers.dfy` | `Option` and `Result` |
| `Numerals` | `numerals.dfy` | `str.isdigit` and `int(str)` on ASCII text: whitespace stripping, an optional sign, underscores between digits, and CPython's limit of 4300 digits |
| `Calendar` | `calendar.dfy` | proleptic Gregorian dates and ordinal day numbers, so `d + timedelta(days=n)` and `(end - start).days` become integer arithmetic |
| `DateFormat` | `date_format.dfy` | `strptime(text, "%d/%m/%Y")`, field by field, as Python's `_strptime` patterns accept them |
| `Rounding` | `rounding.dfy` | `round(x, 2)`: the nearest hundredth, ties to even |
| `Pricing` | `pricing.dfy` | `EXCHANGE_RATES` and `calculate_price` |
| `Validation` | `validation.dfy` | the constants and `parse_xml` |

Modelling choices:

- **Validator input.** The validator does not read XML. It reads a `Document`: a map from each path to the text of the first element there, plus the attribute names of the credentials element.
- **Current date.** The current date is the parameter `today`.
- **Errors.** Each `ValueError` the program raises becomes a constructor of `ValidationError` or `PricingError`. That includes the one `int()` raises on a timeout of more than 4300 digits (`TimeoutConversion`).

Behaviour of `script.py` that the model keeps:

- **Rounding.** `round` (line 33) rounds half to even, so `round(0.125, 2)` is 0.12 and `round(0.135, 2)` is 0.14.
- **Lead time.** The test on line 72 is `start < today + 2 days`, so a start exactly two days ahead is accepted.
- **Quota.** The quota (lines 59-60) has no lower bound: zero and negative values pass as they are.
- **Non-integer quota.** A quota that is not an integer makes `int()` on line 59 raise, which the model reports as `InvalidQuota`. It is not replaced by the default.
- **Digit limit.** CPython's `int()` refuses decimal text of more than 4300 digits. On line 47 that raises `int()`'s own `ValueError`, not the timeout message.
- **Sample price.** The sample offer (132.42 USD, 3.2 % markup, lines 105-111) has the exact amount 136.65744, so it sells for 136.66.

## Model

| member | source | states |
|---|---|---|
| Pricing.CalculatePrice | script.py:27-40 | Fails exactly when the table has no rate from the quoted to the requested currency, and the error names that pair. Otherwise the quote is in the requested currency, carries the given markup and the table's rate, and its price is net × (1 + markup/100) × rate rounded to hundredths: whole cents, within 0.005 of the exact amount |
| Pricing.ExchangeRatesShape | script.py:21-25 | The rate table covers EUR, USD and GBP, each against all three, and converts a currency to itself at rate 1.0 |
| Pricing.SupportedCurrenciesPrice | script.py:29-30 | No pair drawn from the three currencies raises the unsupported-pair error |
| Pricing.SameCurrencyPrice | script.py:32-33 | A same-currency request uses rate 1.0; the price is the marked-up net, rounded |
| Pricing.ZeroNetPrice | script.py:33 | A zero net price sells for zero, whatever the markup and the rate |
| Pricing.ZeroMarkupPrice | script.py:33 | With zero markup the price is the converted net, rounded |
| Pricing.SampleOfferPrice | script.py:105-111 | The sample offer of 132.42 USD at 3.2 % markup, requested in USD, is quoted at 136.66 USD with rate 1.0 |
| Rounding.RoundHalfEven | script.py:33 | The result is at most 0.5 from the input, and an exact tie goes to the even integer |
| Rounding.RoundHalfEvenIsNearest | script.py:33 | No integer is nearer to the input than the rounded one |
| Rounding.RoundHalfEvenUnique | script.py:33 | Any integer within 0.5 of the input that is even on a tie is the rounded value, so rounding is fully determined |
| Rounding.RoundHalfEvenMonotone | script.py:33 | A larger input never rounds to a smaller integer |
| Rounding.Round2 | script.py:33 | `round(x, 2)` is a whole number of hundredths within 0.005 of `x`, and on an exact tie it is the even hundredth |
| Rounding.Round2Unique | script.py:33 | Any whole number of hundredths within 0.005 of `x` that is even on a tie equals `round(x, 2)`, so those three properties determine the result |
| Rounding.Round2Ties | script.py:33 | `round(0.125, 2) == 0.12` and `round(0.135, 2) == 0.14`: halves go to the even hundredth |
| Rounding.Round2OfCents | script.py:33 | An amount already in whole hundredths is unchanged |
| Rounding.Round2Idempotent | script.py:33 | Rounding a rounded price again changes nothing |
| Rounding.Round2Negate | script.py:33 | Rounding is symmetric about zero |
| Rounding.Round2Monotone | script.py:33 | A larger amount never gets a smaller rounded price |
| Numerals.DigitsValueBound | script.py:47 | A text of k decimal digits has a value below 10^k |
| Numerals.DigitPairValue | script.py:69-70 | A two-digit text is worth ten times its first digit plus its second |
| Numerals.DigitsValueOfNatDigits | script.py:47 | Reading back the decimal text of a natural number gives the number |
| Numerals.IsSpace | script.py:59 | The characters `int()` strips are exactly tab, line feed, vertical tab, form feed, carriage return and space |
| Numerals.Strip | script.py:59 | After stripping, the text neither starts nor ends with whitespace |
| Numerals.StripLeftIsSuffix | script.py:59 | Stripping the front leaves a suffix of the text, and everything cut off is whitespace |
| Numerals.StripRightIsPrefix | script.py:59 | Stripping the back leaves a prefix of the text, and everything cut off is whitespace |
| Numerals.StripIsSlice | script.py:59 | The stripped text is a slice of the input with only whitespace before and after it |
| Numerals.StripIdempotent | script.py:59 | Stripping twice is stripping once |
| Numerals.StripPadded | script.py:59 | Whitespace around a text with non-space ends is exactly what is stripped |
| Numerals.DigitsAreGroups | script.py:59 | Every all-digit text is also a valid underscore-grouped number |
| Numerals.GroupsAroundUnderscore | script.py:59 | Two digit strings joined by one underscore form a valid grouped number |
| Numerals.DigitsOf | script.py:59 | Keeps only digits, never lengthens the text, and leaves an all-digit text unchanged |
| Numerals.DigitsOfConcat | script.py:59 | The digits of a concatenation are the digits of each part, in order |
| Numerals.RemoveUnderscores | script.py:59 | Dropping the separators from a grouped number leaves a non-empty digit string |
| Numerals.RemoveUnderscoresIsDigitsOf | script.py:59 | Dropping the separators leaves exactly the digits of the text, in order |
| Numerals.ParseUnsigned | script.py:59 | An all-digit body reads as its decimal value when it has at most 4300 digits, and is refused when longer |
| Numerals.ParseUnsignedOfGroups | script.py:59 | A body is accepted exactly when it is digit groups holding at most 4300 digits, and then reads as the number its digits spell, underscores ignored |
| Numerals.ParseInt | script.py:47 | `int()` of an all-digit text is its decimal value when it has at most 4300 digits, and an error when longer |
| Numerals.ParseIntOfStripped | script.py:59 | `int()` of a text equals `int()` of the text stripped of surrounding whitespace |
| Numerals.ParseIntOfBlank | script.py:59 | Empty or all-whitespace text is not a number |
| Numerals.ParseIntOfDigitEnds | script.py:59 | A text with a digit at each end is read with no sign |
| Numerals.ParseIntOfNegatedDigits | script.py:59 | A minus sign followed by digits reads as the negated value, or an error past 4300 digits |
| Numerals.ParseIntOfPlusDigits | script.py:59 | A plus sign before digits changes nothing |
| Numerals.DigitsOfUnderscore | script.py:59 | The digits of `a_b` are the digits of `ab` |
| Numerals.ParseIntUnderscore | script.py:59 | An underscore between two digit strings does not change the number: `int("1_000") == int("1000")` |
| Numerals.ParseIntOfNatDigits | script.py:59 | `int(str(n)) == n` for every natural number of at most 4300 digits, and an error beyond |
| Numerals.ParseIntOfIntText | script.py:59 | `int(str(i)) == i` for every integer of at most 4300 digits, negative ones included, and an error beyond |
| Numerals.ParseIntOfPaddedIntText | script.py:59 | Whitespace around the text of an integer changes nothing: `int(w1 + str(i) + w2) == i` |
| Calendar.IsLeapYear | script.py:69-70 | Every fourth year is a leap year, except century years that are not multiples of 400 |
| Calendar.ValidDate | script.py:69-70 | A valid date has a year from 1, a month from 1 to 12 and a day from 1 to 31. 29 February occurs only in leap years, and day 31 only in the seven long months. Every day 1 to 28 of every month exists |
| Calendar.DaysInYear | script.py:69-70 | A year has 365 or 366 days |
| Calendar.DaysInMonth | script.py:69-70 | A month has 28 to 31 days, and 29 exactly for February in a leap year |
| Calendar.FourHundredYearCycle | script.py:72-74 | The leap-year pattern repeats every 400 years, and 400 years hold 146097 days |
| Calendar.DayNumber | script.py:74 | Every valid date has a positive ordinal, so `(end - start).days` is the difference of two ordinals |
| Calendar.NextDay | script.py:72 | The day after a valid date is a valid date |
| Calendar.DaysBeforeYearStep | script.py:72-74 | Day numbers continue across a year boundary, with leap years counted |
| Calendar.DaysBeforeMonthStep | script.py:72-74 | Day numbers continue across a month boundary, and December closes the year |
| Calendar.NextDayNumber | script.py:72 | The next day has the next ordinal and comes later in the calendar |
| Calendar.BeforeImpliesSmallerNumber | script.py:72 | An earlier calendar date has a smaller ordinal |
| Calendar.DayNumberOrder | script.py:72 | Ordinals order dates exactly as the calendar does, in both directions, and identify them |
| Calendar.AddDays | script.py:72 | Adding days to a valid date gives a valid date |
| Calendar.AddDaysNumber | script.py:72 | Adding n days adds n to the ordinal, as `today + timedelta(days=n)` does |
| DateFormat.FindSlash | script.py:69-70 | The index of the first '/' in the text, or its length when there is none |
| DateFormat.FindSlashAt | script.py:69-70 | A slash-free prefix ends at the first '/' |
| DateFormat.DayField | script.py:69-70 | A `%d` field is exactly one of the pattern's alternatives: `3[01]`, `[12]\d`, `0[1-9]`, `[1-9]` or ` [1-9]` |
| DateFormat.MonthField | script.py:69-70 | A `%m` field is exactly one of `1[0-2]`, `0[1-9]` or `[1-9]` |
| DateFormat.YearField | script.py:69-70 | A `%Y` field is four digits, so it names a year below 10000 |
| DateFormat.DayFieldValue | script.py:69-70 | A `%d` field (for example "05", " 5" or "31") names a day from 1 to 31 |
| DateFormat.DayFieldIsInt | script.py:69-70 | The day a `%d` field names is what `int()` reads from it: " 5", "05" and "5" all name 5 |
| DateFormat.ParseFields | script.py:69-70 | A date comes back exactly when each field has the form its directive accepts and their values name a real calendar day, and it then has a four-digit year |
| DateFormat.ParseFieldsIsInt | script.py:69-70 | Day, month and year of a parsed date are what `int()` reads from the three fields |
| DateFormat.ParseDate | script.py:69-70 | A date read from text is a real calendar day in years 1 to 9999; unreadable text is an error |
| DateFormat.ParseDateOfParts | script.py:69-70 | A text of two slash-free fields, a third field and two slashes is read field by field |
| DateFormat.Pad2 | script.py:69-70 | Two digits whose value is the given number below 100 |
| DateFormat.Pad4 | script.py:69-70 | Four digits whose value is the given number below 10000 |
| DateFormat.ParseFormatDate | script.py:69-70 | Every date with a four-digit year is read back from its `DD/MM/YYYY` text |
| DateFormat.ParseSampleStartDate | script.py:143 | "20/02/2025" reads as 20 February 2025 |
| DateFormat.ParseSampleEndDate | script.py:144 | "24/02/2025" reads as 24 February 2025 |
| DateFormat.ParseIsoDateFails | script.py:69 | The ISO text "2025-02-20" is rejected |
| DateFormat.ThirtiethOfFebruaryFields | script.py:69 | The fields "30", "02" and "2025" are each well formed but name no date |
| DateFormat.ParseImpossibleDayFails | script.py:69 | "30/02/2025" is rejected although each field is well formed |
| Validation.Text | script.py:46 | `findtext` gives the text at a path exactly when an element is there |
| Validation.CheckTimeout | script.py:46-48 | The timeout passes exactly when it is present, all digits, at most 4300 digits long and at least 1000. Past 4300 digits the error is the one `int()` raises; every other failure is `InvalidTimeout` |
| Validation.CheckTimeoutReadsInt | script.py:47 | The check is `not t.isdigit() or int(t) < 1000`, with the error `int()` raises passed on |
| Validation.TimeoutOk | script.py:46-48 | Rule 1 passes exactly when the timeout is present, all digits, at most 4300 digits long and at least 1000 |
| Validation.FirstMissing | script.py:50-53 | Every field before the returned index is present, and the field at that index, if any, is absent |
| Validation.Normalize | script.py:55-57 | A value in its valid set is kept; an absent or invalid one becomes the default; the result is always valid |
| Validation.ReadQuota | script.py:59-60 | A missing quota becomes 20. Text that `int()` rejects is an `InvalidQuota` error carrying that text. An integer q becomes q when at most 50, and 50 otherwise |
| Validation.HasCredentials | script.py:62-64 | The credentials element is present and carries `password`, `username` and `CompanyID` |
| Validation.Validate | script.py:42-92 | Every accepted request has language, currency and nationality in their valid sets, a quota of at most 50, a start at least two days after today and a stay of at least three nights |
| Validation.AllFieldsPresent | script.py:50-53 | Passing the required-field loop means all five fields are present |
| Validation.TimeoutRule | script.py:46-48 | The request fails with `InvalidTimeout` exactly when the timeout is absent, not all digits, or at most 4300 digits and below 1000. It fails with `int()`'s error exactly when the timeout is all digits and longer |
| Validation.MissingFieldRule | script.py:50-53 | With a good timeout, the first absent required field in list order is the one reported |
| Validation.MissingFieldReported | script.py:50-53 | A reported field is required and absent, every field checked before it is present, and the timeout was good |
| Validation.FirstMissingSameKeys | script.py:50-53 | The field check depends only on which paths are present |
| Validation.QuotaRule | script.py:59 | After the field checks, a request fails with `InvalidQuota` exactly when a quota is given that `int()` rejects; a missing quota never fails |
| Validation.QuotaOfIntegerText | script.py:59-60 | Every integer text of at most 4300 digits is accepted as a quota: zero and negatives as they are, values above 50 capped at 50. A longer one is refused |
| Validation.CredentialsRule | script.py:62-64 | After the quota check, a request fails with `MissingCredentials` exactly when the element is missing or lacks an attribute, whatever the dates say |
| Validation.DateFormatRule | script.py:66-70 | After the credentials check, an unreadable start date is reported, then an unreadable end date, before any date-window rule |
| Validation.DateWindowRules | script.py:72-75 | With both dates read, the lead time is checked first, then the stay. The request is accepted exactly when both hold; a start exactly two days ahead and a stay of exactly three nights pass |
| Validation.LeadTimeIsCalendarComparison | script.py:68-72 | The ordinal test is the calendar comparison `start < today + timedelta(days=2)` |
| Validation.LeadTimeBoundary | script.py:72-73 | A start two days after today meets the lead time, while one day after does not |
| Validation.NormalizedFields | script.py:77-83 | In an accepted request, language, currency and nationality are the input when it is valid, and the default otherwise |
| Validation.NormalizedQuota | script.py:59-60 | In an accepted request, the quota is `min(q, 50)` of the given integer q, or 20 when none is given |
| Validation.EnumTextsNeverFail | script.py:55-83 | Changing the language, currency or nationality text changes neither whether a request is rejected nor why |
| Validation.SameOutcomeAfterCredentials | script.py:66-75 | Past the credentials check, only the two date texts decide whether and why a request is rejected |
| Validation.ValidatedCurrencyIsPriceable | script.py:77-79 | The currency of every accepted request can be priced from any supported quoted currency |
| Validation.AcceptedRequestParts | script.py:85-92 | An accepted request consists of the normalised language, quota, currency and nationality and the two parsed dates |
| Validation.AcceptedWhenAllRulesPass | script.py:85-92 | A request that passes every rule is accepted with exactly those values |
| Validation.SampleTimeoutOk | script.py:132 | The sample timeout "25000" passes the timeout rule |
| Validation.SampleDocumentTexts | script.py:134-146 | The sample asks for language "en", currency "USD" and nationality "US" |
| Validation.SampleDocumentChecks | script.py:130-147 | The sample request passes the rules up to the credentials check and asks for 20 options |
| Validation.SampleRequestDayNumbers | script.py:143-144 | The sample start date is two days after 18 February 2025, and the stay is four nights |
| Validation.SampleRequestAccepted | script.py:150-151 | Up to and including 18 February 2025, the sample request is accepted as (en, 20, USD, US, 20/02/2025, 24/02/2025) |
| Validation.SampleRequestTooLate | script.py:72-73 | From 19 February 2025 on, the sample request fails the lead-time rule |

## Left out

- XML parsing (`ET.fromstring`, line 44) is not modelled. A malformed document raises an XML parse error there, and that error is not modelled either. The `.//` descendant search is reduced to the first text found for a path, and each path is a key of `Document`.
- The clock (`datetime.today()`, line 68) is not modelled; the current date at midnight is the parameter `today`.
- The error messages of the `ValueError`s are not modelled; each error is a constructor.
- Numerals.ParseInt: the 4300-digit limit is CPython's default `sys.get_int_max_str_digits()`. A program or environment that changes the limit (`sys.set_int_max_str_digits`, `PYTHONINTMAXSTRDIGITS`) moves the point at which `TimeoutOk` and `ReadQuota` fail; the model fixes it at 4300.
- Rounding.Round2: rounds the exact real value half to even. Python rounds the binary double nearest to it, and `net * (1 + markup/100) * rate` is computed in doubles. So an amount whose double lies just off a tie (or rounds differently in binary) may differ from the model by one hundredth.
- Pricing.CalculatePrice: computes on exact reals rather than IEEE-754 doubles, for the same reason as `Round2`. Its price can differ from Python's by one hundredth when binary representation moves the value across a rounding boundary.
- Numerals.ParseInt: ASCII text only. Python's `int()` and `str.isdigit` also accept non-ASCII decimal digits and strip non-ASCII whitespace; the model does neither.
- DateFormat.ParseDate: ASCII digits only. The `\d` in Python's `strptime` patterns also matches non-ASCII digits.
- Calendar.AddDays: is unbounded, whereas Python's `datetime` stops at 31 December 9999. So the `OverflowError` that `today + timedelta(days=2)` raises in the last two days of year 9999 is not modelled.
- `generate_response` (lines 94-127) is not modelled: the hard-coded hotel list, `minimumSellingPrice`, and the JSON serialisation. Only its call to `calculate_price` on the sample offer appears, in `Pricing.SampleOfferPrice`.
- The driver (lines 150-155) and its printing are not modelled. The sample request (lines 130-148) appears as `Validation.SampleDocument`.
- `VALID_MARKETS`, `DEFAULT_MARKET` and `var_ocg` (lines 10, 15, 19) are defined but never read by the core, so they are not modelled.
