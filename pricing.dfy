/** The price calculator: a supplier's net price, marked up by a percentage
    and converted from the quoted currency into the requested one through a
    fixed table of rates, rounded once to hundredths. */
module Pricing {
  import opened Wrappers
  import opened Rounding

  type CurrencyCode = string

  /** `EXCHANGE_RATES[quoted][requested]`: a read-only table with an identity
      entry for every currency. */
  const ExchangeRates: map<CurrencyCode, map<CurrencyCode, real>> := map[
    "EUR" := map["USD" := 1.1, "GBP" := 0.85, "EUR" := 1.0],
    "USD" := map["EUR" := 0.91, "GBP" := 0.78, "USD" := 1.0],
    "GBP" := map["EUR" := 1.18, "USD" := 1.28, "GBP" := 1.0]
  ]

  /** The priced offer: price and currency as the caller asked, with the
      markup and the rate that produced them. */
  datatype PriceQuote = PriceQuote(
    sellingPrice: real,
    markup: real,
    exchangeRate: real,
    sellingCurrency: CurrencyCode)

  /** The `ValueError` raised for a pair missing from the table. */
  datatype PricingError = UnsupportedCurrencyPair(quoted: CurrencyCode, requested: CurrencyCode)

  /** The table has a rate from `quoted` to `requested`. */
  predicate SupportedPair(quoted: CurrencyCode, requested: CurrencyCode) {
    quoted in ExchangeRates && requested in ExchangeRates[quoted]
  }

  /** The exact selling amount before rounding. */
  function GrossAmount(net: real, markup: real, rate: real): (g: real) {
    net * (1.0 + markup / 100.0) * rate
  }

  /** `calculate_price(net_price, request_currency, response_currency, markup)`,
      where `quoted` is the supplier's (response) currency. */
  function CalculatePrice(net: real, requested: CurrencyCode, quoted: CurrencyCode, markup: real)
    : (r: Result<PriceQuote, PricingError>)
    ensures r.Failure? <==> !SupportedPair(quoted, requested)
    ensures r.Failure? ==> r.error == UnsupportedCurrencyPair(quoted, requested)
    ensures r.Success? ==>
      && r.value.sellingCurrency == requested
      && r.value.markup == markup
      && r.value.exchangeRate == ExchangeRates[quoted][requested]
      && r.value.sellingPrice == Round2(GrossAmount(net, markup, r.value.exchangeRate))
    ensures r.Success? ==>
      && IsCents(r.value.sellingPrice)
      && Abs(r.value.sellingPrice - GrossAmount(net, markup, r.value.exchangeRate)) <= 0.005
  {
    if quoted !in ExchangeRates || requested !in ExchangeRates[quoted] then
      Failure(UnsupportedCurrencyPair(quoted, requested))
    else
      var rate := ExchangeRates[quoted][requested];
      Success(PriceQuote(Round2(GrossAmount(net, markup, rate)), markup, rate, requested))
  }

  /** The table covers exactly the three currencies, each against each, with
      rate 1.0 from a currency to itself. */
  lemma ExchangeRatesShape()
    ensures ExchangeRates.Keys == {"EUR", "USD", "GBP"}
    ensures forall q :: q in ExchangeRates ==> ExchangeRates[q].Keys == {"EUR", "USD", "GBP"}
    ensures forall q :: q in ExchangeRates ==> ExchangeRates[q][q] == 1.0
  {
  }

  /** Every pair drawn from EUR, USD and GBP is priced. */
  lemma SupportedCurrenciesPrice(net: real, requested: CurrencyCode, quoted: CurrencyCode, markup: real)
    requires requested in {"EUR", "USD", "GBP"} && quoted in {"EUR", "USD", "GBP"}
    ensures CalculatePrice(net, requested, quoted, markup).Success?
  {
    ExchangeRatesShape();
  }

  /** A same-currency request goes through the table's identity entry: the
      price is the marked-up net, rounded. */
  lemma SameCurrencyPrice(net: real, currency: CurrencyCode, markup: real)
    requires currency in ExchangeRates
    ensures CalculatePrice(net, currency, currency, markup)
         == Success(PriceQuote(Round2(net * (1.0 + markup / 100.0)), markup, 1.0, currency))
  {
    ExchangeRatesShape();
  }

  /** A net price of zero sells for zero, whatever the markup and the rate. */
  lemma ZeroNetPrice(requested: CurrencyCode, quoted: CurrencyCode, markup: real)
    requires SupportedPair(quoted, requested)
    ensures CalculatePrice(0.0, requested, quoted, markup).Success?
    ensures CalculatePrice(0.0, requested, quoted, markup).value.sellingPrice == 0.0
  {
    Round2OfCents(0.0);
  }

  /** With no markup the price is the converted net, rounded. */
  lemma ZeroMarkupPrice(net: real, requested: CurrencyCode, quoted: CurrencyCode)
    requires SupportedPair(quoted, requested)
    ensures CalculatePrice(net, requested, quoted, 0.0).Success?
    ensures CalculatePrice(net, requested, quoted, 0.0).value.sellingPrice
         == Round2(net * ExchangeRates[quoted][requested])
  {
  }

  /** The sample offer: 132.42 USD at 3.2% markup, asked for in USD. The exact
      amount 136.65744 rounds to 136.66. */
  lemma SampleOfferPrice()
    ensures CalculatePrice(132.42, "USD", "USD", 3.2) == Success(PriceQuote(136.66, 3.2, 1.0, "USD"))
  {
    var gross := GrossAmount(132.42, 3.2, 1.0);
    assert gross == 136.65744;
    RoundHalfEvenUnique(gross * 100.0, 13666);
  }
}
