/** The request validator: reads an availability-search request, rejects it
    at the first failed rule, and otherwise returns it with its optional and
    enumerated fields replaced by defaults where they are absent or invalid. */
module Validation {
  import opened Wrappers
  import opened Numerals
  import opened Calendar
  import opened DateFormat
  import Pricing

  const ValidLanguages: set<string> := {"en", "fr", "de", "es"}
  const ValidCurrencies: set<string> := {"EUR", "USD", "GBP"}
  const ValidNationalities: set<string> := {"US", "GB", "CA"}

  const DefaultLanguage: string := "en"
  const DefaultCurrency: string := "EUR"
  const DefaultNationality: string := "US"
  const DefaultOptionsQuota: int := 20
  const MaxOptionsQuota: int := 50

  const MinTimeoutMilliseconds: nat := 1000
  /** The start date may not fall before today plus this many days. */
  const LeadTimeDays: nat := 2
  /** The stay must span at least this many nights. */
  const MinimumStayNights: int := 3

  const TimeoutPath: string := "timeoutMilliseconds"
  const LanguagePath: string := "source/languageCode"
  const QuotaPath: string := "optionsQuota"
  const SearchTypePath: string := "SearchType"
  const StartDatePath: string := "StartDate"
  const EndDatePath: string := "EndDate"
  const CurrencyPath: string := "Currency"
  const NationalityPath: string := "Nationality"

  /** The fields that must be present, in the order they are checked. */
  const RequiredFields: seq<string> :=
    [SearchTypePath, StartDatePath, EndDatePath, CurrencyPath, NationalityPath]

  /** The attributes the credentials element must carry. */
  const CredentialAttributes: set<string> := {"password", "username", "CompanyID"}

  /** The request document as the validator reads it: for each path, the text
      of the first element found there (an element without text reads as the
      empty string; a path with no element is not a key), and the attribute
      names of the `Configuration/Parameters/Parameter` element, if any. */
  datatype Document = Document(texts: map<string, string>, parameter: Option<set<string>>)

  /** `findtext(".//" + path)`: the text at `path`, or `None` when no
      element is there. */
  function Text(doc: Document, path: string): (r: Option<string>)
    ensures r.Some? <==> path in doc.texts
    ensures r.Some? ==> r.value == doc.texts[path]
  {
    if path in doc.texts then Some(doc.texts[path]) else None
  }

  /** The `ValueError`s the validator raises: one per rule, and the one
      `int()` raises on a timeout too long to convert. */
  datatype ValidationError =
    | InvalidTimeout
    | TimeoutConversion(text: string)
    | MissingField(name: string)
    | InvalidQuota(text: string)
    | MissingCredentials
    | InvalidDateFormat(text: string)
    | LeadTimeViolation
    | MinimumStayViolation

  /** The validated request. */
  datatype NormalizedRequest = NormalizedRequest(
    language: string,
    optionsQuota: int,
    currency: string,
    nationality: string,
    startDate: Date,
    endDate: Date)

  /** Rule 1: `None` when the timeout passes, otherwise the error raised.
      A timeout made of digits is converted with `int()`, which refuses more
      than 4300 digits with a `ValueError` of its own; any other timeout that
      is absent, not all digits or below 1000 gets the rule's own message. */
  function CheckTimeout(text: Option<string>): (r: Option<ValidationError>)
    ensures r.None? <==>
      text.Some? && IsDigits(text.value) && |text.value| <= MaxStrDigits
      && DigitsValue(text.value) >= MinTimeoutMilliseconds
    ensures text.Some? ==> (r == Some(TimeoutConversion(text.value)) <==>
      IsDigits(text.value) && |text.value| > MaxStrDigits)
    ensures r.Some? && r.value != InvalidTimeout ==> text.Some? && r.value == TimeoutConversion(text.value)
  {
    match text
    case None => Some(InvalidTimeout)
    case Some(t) =>
      if !IsDigits(t) then Some(InvalidTimeout)
      else if |t| > MaxStrDigits then Some(TimeoutConversion(t))
      else if DigitsValue(t) < MinTimeoutMilliseconds then Some(InvalidTimeout)
      else None
  }

  /** The check is `timeout is None or not timeout.isdigit() or
      int(timeout) < 1000`, with the error `int()` raises passed on. */
  lemma CheckTimeoutReadsInt(t: string)
    ensures CheckTimeout(Some(t)) ==
      if !IsDigits(t) then Some(InvalidTimeout)
      else match ParseInt(t)
        case None => Some(TimeoutConversion(t))
        case Some(n) => if n < MinTimeoutMilliseconds then Some(InvalidTimeout) else None
  {
  }

  /** Rule 1 passes. */
  function TimeoutOk(doc: Document): (b: bool)
    ensures b <==>
      && TimeoutPath in doc.texts && IsDigits(doc.texts[TimeoutPath])
      && |doc.texts[TimeoutPath]| <= MaxStrDigits
      && DigitsValue(doc.texts[TimeoutPath]) >= MinTimeoutMilliseconds
  {
    CheckTimeout(Text(doc, TimeoutPath)).None?
  }

  /** Rule 2: the index of the first field of `fields` missing from the
      document, or `|fields|` when none is. */
  function FirstMissing(doc: Document, fields: seq<string>): (k: nat)
    ensures k <= |fields|
    ensures forall i :: 0 <= i < k ==> fields[i] in doc.texts
    ensures k < |fields| ==> fields[k] !in doc.texts
  {
    if fields == [] || fields[0] !in doc.texts then 0 else 1 + FirstMissing(doc, fields[1..])
  }

  /** Rules 3 and 8: a value outside its valid set, or absent, becomes the default. */
  function Normalize(text: Option<string>, valid: set<string>, default: string): (r: string)
    requires default in valid
    ensures r in valid
    ensures text.Some? && text.value in valid ==> r == text.value
    ensures !(text.Some? && text.value in valid) ==> r == default
  {
    match text
    case Some(t) => if t in valid then t else default
    case None => default
  }

  /** Rule 4: `min(int(text or 20), 50)`; text `int()` rejects is an error. */
  function ReadQuota(text: Option<string>): (r: Result<int, ValidationError>)
    ensures text.None? ==> r == Success(DefaultOptionsQuota)
    ensures text.Some? ==> (r.Failure? <==> ParseInt(text.value).None?)
    ensures r.Failure? ==> r.error == InvalidQuota(text.value)
    ensures r.Success? && text.Some? ==>
      var q := ParseInt(text.value).value;
      r.value <= MaxOptionsQuota && (r.value == q || r.value == MaxOptionsQuota)
      && (q <= MaxOptionsQuota ==> r.value == q)
  {
    var q := match text
      case None => Some(DefaultOptionsQuota)
      case Some(t) => ParseInt(t);
    match q
    case None => Failure(InvalidQuota(text.value))
    case Some(n) => Success(if n < MaxOptionsQuota then n else MaxOptionsQuota)
  }

  /** Rule 5: the credentials element exists and carries all three attributes. */
  function HasCredentials(parameter: Option<set<string>>): (b: bool)
    ensures b <==>
      && parameter.Some?
      && "password" in parameter.value && "username" in parameter.value && "CompanyID" in parameter.value
  {
    parameter.Some? && CredentialAttributes <= parameter.value
  }

  /** What every validated request satisfies: enumerated fields in their valid
      sets, the quota at most 50, the start at least two days after today and
      a stay of at least three nights. */
  predicate WellFormed(req: NormalizedRequest, today: Date)
    requires ValidDate(today)
  {
    && req.language in ValidLanguages
    && req.currency in ValidCurrencies
    && req.nationality in ValidNationalities
    && req.optionsQuota <= MaxOptionsQuota
    && ValidDate(req.startDate)
    && ValidDate(req.endDate)
    && DayNumber(req.startDate) >= DayNumber(today) + LeadTimeDays
    && DayNumber(req.endDate) - DayNumber(req.startDate) >= MinimumStayNights
  }

  /** `parse_xml`, with `today` the current date at midnight. */
  function Validate(doc: Document, today: Date): (r: Result<NormalizedRequest, ValidationError>)
    requires ValidDate(today)
    ensures r.Success? ==> WellFormed(r.value, today)
  {
    if !TimeoutOk(doc) then Failure(CheckTimeout(Text(doc, TimeoutPath)).value)
    else
      var missing := FirstMissing(doc, RequiredFields);
      if missing < |RequiredFields| then Failure(MissingField(RequiredFields[missing]))
      else
        var language := Normalize(Text(doc, LanguagePath), ValidLanguages, DefaultLanguage);
        match ReadQuota(Text(doc, QuotaPath))
        case Failure(e) => Failure(e)
        case Success(quota) =>
          if !HasCredentials(doc.parameter) then Failure(MissingCredentials)
          else
            assert StartDatePath == RequiredFields[1] && EndDatePath == RequiredFields[2];
            var startText, endText := doc.texts[StartDatePath], doc.texts[EndDatePath];
            match ParseDate(startText)
            case None => Failure(InvalidDateFormat(startText))
            case Some(start) =>
              match ParseDate(endText)
              case None => Failure(InvalidDateFormat(endText))
              case Some(end) =>
                if DayNumber(start) < DayNumber(today) + LeadTimeDays then Failure(LeadTimeViolation)
                else if DayNumber(end) - DayNumber(start) < MinimumStayNights then Failure(MinimumStayViolation)
                else
                  var currency := Normalize(Text(doc, CurrencyPath), ValidCurrencies, DefaultCurrency);
                  var nationality := Normalize(Text(doc, NationalityPath), ValidNationalities, DefaultNationality);
                  Success(NormalizedRequest(language, quota, currency, nationality, start, end))
  }

  /** The document passes rules 1 and 2. */
  predicate PassesFieldChecks(doc: Document) {
    TimeoutOk(doc) && FirstMissing(doc, RequiredFields) == |RequiredFields|
  }

  /** The document passes rules 1 to 4. */
  predicate PassesQuotaCheck(doc: Document) {
    PassesFieldChecks(doc) && ReadQuota(Text(doc, QuotaPath)).Success?
  }

  /** The document passes rules 1 to 5. */
  predicate PassesCredentialsCheck(doc: Document) {
    PassesQuotaCheck(doc) && HasCredentials(doc.parameter)
  }

  lemma AllFieldsPresent(doc: Document)
    requires FirstMissing(doc, RequiredFields) == |RequiredFields|
    ensures forall f :: f in RequiredFields ==> f in doc.texts
  {
  }

  /** Rule 1 fails exactly when the timeout is absent, not all digits, too
      long for `int()`, or below 1000, and nothing later reports its errors. */
  lemma TimeoutRule(doc: Document, today: Date)
    requires ValidDate(today)
    ensures Validate(doc, today) == Failure(InvalidTimeout) <==>
      match Text(doc, TimeoutPath)
      case None => true
      case Some(t) => !IsDigits(t) || (|t| <= MaxStrDigits && DigitsValue(t) < MinTimeoutMilliseconds)
    ensures Validate(doc, today).Failure? && Validate(doc, today).error.TimeoutConversion? <==>
      TimeoutPath in doc.texts && IsDigits(doc.texts[TimeoutPath]) && |doc.texts[TimeoutPath]| > MaxStrDigits
    ensures !TimeoutOk(doc) ==> Validate(doc, today).Failure?
  {
  }

  /** After a good timeout, the first required field (in list order) that is
      absent is reported; a field with empty text is present. */
  lemma MissingFieldRule(doc: Document, today: Date, i: nat)
    requires ValidDate(today) && TimeoutOk(doc)
    requires i < |RequiredFields| && RequiredFields[i] !in doc.texts
    requires forall j :: 0 <= j < i ==> RequiredFields[j] in doc.texts
    ensures Validate(doc, today) == Failure(MissingField(RequiredFields[i]))
  {
    assert FirstMissing(doc, RequiredFields) == i;
  }

  /** A reported missing field is absent, and every field checked before it
      is present. */
  lemma MissingFieldReported(doc: Document, today: Date, name: string)
    requires ValidDate(today)
    requires Validate(doc, today) == Failure(MissingField(name))
    ensures TimeoutOk(doc) && name in RequiredFields && name !in doc.texts
    ensures forall j :: 0 <= j < |RequiredFields| && RequiredFields[j] == name ==>
      forall i :: 0 <= i < j ==> RequiredFields[i] in doc.texts
  {
    var k := FirstMissing(doc, RequiredFields);
    assert k < |RequiredFields| && RequiredFields[k] == name;
    forall j | 0 <= j < |RequiredFields| && RequiredFields[j] == name
      ensures forall i :: 0 <= i < j ==> RequiredFields[i] in doc.texts
    {
      assert j == k;
    }
  }

  /** Rule 4 fails, after rules 1 and 2 pass, exactly when the quota text is
      not an integer; a missing quota is never an error. */
  lemma QuotaRule(doc: Document, today: Date)
    requires ValidDate(today) && PassesFieldChecks(doc)
    ensures Validate(doc, today).Failure? && Validate(doc, today).error.InvalidQuota?
        <==> QuotaPath in doc.texts && ParseInt(doc.texts[QuotaPath]).None?
    ensures !PassesQuotaCheck(doc) ==> Validate(doc, today) == Failure(InvalidQuota(doc.texts[QuotaPath]))
  {
  }

  /** Every integer text `int()` converts is accepted as a quota, zero and
      negative ones as they are, and one above 50 becomes 50; one of more
      than 4300 digits is refused. */
  lemma QuotaOfIntegerText(q: int)
    ensures ReadQuota(Some(IntText(q))) ==
      if DigitCount(q) > MaxStrDigits then Failure(InvalidQuota(IntText(q)))
      else Success(if q <= MaxOptionsQuota then q else MaxOptionsQuota)
  {
    ParseIntOfIntText(q);
  }

  /** Rule 5, after rules 1 to 4 pass, fails exactly when the credentials
      element is missing or lacks an attribute, whatever the dates say. */
  lemma CredentialsRule(doc: Document, today: Date)
    requires ValidDate(today) && PassesQuotaCheck(doc)
    ensures Validate(doc, today) == Failure(MissingCredentials) <==> !HasCredentials(doc.parameter)
  {
  }

  /** Rule 6: after rules 1 to 5 pass, an unreadable start date is reported,
      then an unreadable end date, before any date-window rule is looked at. */
  lemma DateFormatRule(doc: Document, today: Date)
    requires ValidDate(today) && PassesCredentialsCheck(doc)
    ensures StartDatePath in doc.texts && EndDatePath in doc.texts
    ensures ParseDate(doc.texts[StartDatePath]).None? ==>
      Validate(doc, today) == Failure(InvalidDateFormat(doc.texts[StartDatePath]))
    ensures ParseDate(doc.texts[StartDatePath]).Some? && ParseDate(doc.texts[EndDatePath]).None? ==>
      Validate(doc, today) == Failure(InvalidDateFormat(doc.texts[EndDatePath]))
  {
    AllFieldsPresent(doc);
  }

  /** Rule 7 on two readable dates: the lead time is checked first, then the
      stay; a start exactly two days ahead and a stay of exactly three nights
      pass. */
  lemma DateWindowRules(doc: Document, today: Date, start: Date, end: Date)
    requires ValidDate(today) && PassesCredentialsCheck(doc)
    requires StartDatePath in doc.texts && ParseDate(doc.texts[StartDatePath]) == Some(start)
    requires EndDatePath in doc.texts && ParseDate(doc.texts[EndDatePath]) == Some(end)
    ensures Validate(doc, today) == Failure(LeadTimeViolation)
        <==> DayNumber(start) < DayNumber(today) + LeadTimeDays
    ensures Validate(doc, today) == Failure(MinimumStayViolation)
        <==> DayNumber(start) >= DayNumber(today) + LeadTimeDays
             && DayNumber(end) - DayNumber(start) < MinimumStayNights
    ensures Validate(doc, today).Success?
        <==> DayNumber(start) >= DayNumber(today) + LeadTimeDays
             && DayNumber(end) - DayNumber(start) >= MinimumStayNights
  {
  }

  /** The day-number test is the calendar comparison
      `start < today + timedelta(days=2)`. */
  lemma LeadTimeIsCalendarComparison(start: Date, today: Date)
    requires ValidDate(start) && ValidDate(today)
    ensures DayNumber(start) < DayNumber(today) + LeadTimeDays
        <==> Before(start, AddDays(today, LeadTimeDays))
  {
    AddDaysNumber(today, LeadTimeDays);
    DayNumberOrder(start, AddDays(today, LeadTimeDays));
  }

  /** A start exactly two days ahead meets the lead time; one day ahead does not. */
  lemma LeadTimeBoundary(today: Date)
    requires ValidDate(today)
    ensures DayNumber(AddDays(today, 2)) >= DayNumber(today) + LeadTimeDays
    ensures DayNumber(AddDays(today, 1)) < DayNumber(today) + LeadTimeDays
  {
    AddDaysNumber(today, 2);
    AddDaysNumber(today, 1);
  }

  /** Rules 3 and 8 on an accepted request: each enumerated field is its
      input when that is valid, and the default otherwise. */
  lemma NormalizedFields(doc: Document, today: Date)
    requires ValidDate(today) && Validate(doc, today).Success?
    ensures var req := Validate(doc, today).value;
      && CurrencyPath in doc.texts && NationalityPath in doc.texts
      && req.language == (if LanguagePath in doc.texts && doc.texts[LanguagePath] in ValidLanguages
                          then doc.texts[LanguagePath] else DefaultLanguage)
      && req.currency == (if doc.texts[CurrencyPath] in ValidCurrencies
                          then doc.texts[CurrencyPath] else DefaultCurrency)
      && req.nationality == (if doc.texts[NationalityPath] in ValidNationalities
                             then doc.texts[NationalityPath] else DefaultNationality)
  {
    AllFieldsPresent(doc);
    var req := Validate(doc, today).value;
    assert req.language == Normalize(Text(doc, LanguagePath), ValidLanguages, DefaultLanguage);
    assert req.currency == Normalize(Text(doc, CurrencyPath), ValidCurrencies, DefaultCurrency);
    assert req.nationality == Normalize(Text(doc, NationalityPath), ValidNationalities, DefaultNationality);
  }

  /** The quota of an accepted request: `min(q, 50)` with `q` the given
      integer, or 20 when none is given. */
  lemma NormalizedQuota(doc: Document, today: Date)
    requires ValidDate(today) && Validate(doc, today).Success?
    ensures var quota := Validate(doc, today).value.optionsQuota;
      if QuotaPath in doc.texts then
        ParseInt(doc.texts[QuotaPath]).Some?
        && var q := ParseInt(doc.texts[QuotaPath]).value;
           quota == (if q <= MaxOptionsQuota then q else MaxOptionsQuota)
      else quota == DefaultOptionsQuota
  {
    AcceptedRequestParts(doc, today);
  }

  lemma {:induction false} FirstMissingSameKeys(d1: Document, d2: Document, fields: seq<string>)
    requires forall f :: f in fields ==> (f in d1.texts <==> f in d2.texts)
    ensures FirstMissing(d1, fields) == FirstMissing(d2, fields)
  {
    if fields != [] && fields[0] in d1.texts {
      FirstMissingSameKeys(d1, d2, fields[1..]);
    }
  }

  /** Invalid language, currency or nationality text is never an error:
      replacing it changes neither whether the request is rejected nor why. */
  lemma EnumTextsNeverFail(doc: Document, today: Date, language: string, currency: string, nationality: string)
    requires ValidDate(today)
    requires CurrencyPath in doc.texts && NationalityPath in doc.texts
    ensures var other := doc.(texts := doc.texts[LanguagePath := language][CurrencyPath := currency]
                                          [NationalityPath := nationality]);
      && Validate(other, today).Failure? == Validate(doc, today).Failure?
      && (Validate(doc, today).Failure? ==> Validate(other, today).error == Validate(doc, today).error)
  {
    var other := doc.(texts := doc.texts[LanguagePath := language][CurrencyPath := currency]
                                        [NationalityPath := nationality]);
    assert Text(other, TimeoutPath) == Text(doc, TimeoutPath);
    FirstMissingSameKeys(doc, other, RequiredFields);
    assert Text(other, QuotaPath) == Text(doc, QuotaPath);
    if PassesCredentialsCheck(doc) {
      AllFieldsPresent(doc);
      assert other.texts[StartDatePath] == doc.texts[StartDatePath];
      assert other.texts[EndDatePath] == doc.texts[EndDatePath];
      SameOutcomeAfterCredentials(doc, other, today);
    }
  }

  /** Past rule 5, only the two date texts decide whether and why a request
      is rejected. */
  lemma SameOutcomeAfterCredentials(d1: Document, d2: Document, today: Date)
    requires ValidDate(today) && PassesCredentialsCheck(d1) && PassesCredentialsCheck(d2)
    requires StartDatePath in d1.texts && StartDatePath in d2.texts
    requires EndDatePath in d1.texts && EndDatePath in d2.texts
    requires d1.texts[StartDatePath] == d2.texts[StartDatePath]
    requires d1.texts[EndDatePath] == d2.texts[EndDatePath]
    ensures Validate(d1, today).Failure? == Validate(d2, today).Failure?
    ensures Validate(d1, today).Failure? ==> Validate(d1, today).error == Validate(d2, today).error
  {
  }

  /** Every currency an accepted request can carry is a key of the rate
      table, so the request can be priced from any supported quoted currency. */
  lemma ValidatedCurrencyIsPriceable(doc: Document, today: Date, net: real, quoted: string, markup: real)
    requires ValidDate(today) && Validate(doc, today).Success?
    requires quoted in ValidCurrencies
    ensures Pricing.CalculatePrice(net, Validate(doc, today).value.currency, quoted, markup).Success?
  {
    Pricing.ExchangeRatesShape();
  }

  /** The sample request of the program's driver. */
  const SampleDocument: Document := Document(
    map[
      TimeoutPath := "25000",
      LanguagePath := "en",
      QuotaPath := "20",
      SearchTypePath := "Multiple",
      StartDatePath := "20/02/2025",
      EndDatePath := "24/02/2025",
      CurrencyPath := "USD",
      NationalityPath := "US"
    ],
    Some({"password", "username", "CompanyID"}))

  /** An accepted request is built from the normalised language, quota,
      currency and nationality and the two parsed dates. */
  lemma AcceptedRequestParts(doc: Document, today: Date)
    requires ValidDate(today) && Validate(doc, today).Success?
    ensures PassesCredentialsCheck(doc)
    ensures StartDatePath in doc.texts && EndDatePath in doc.texts
    ensures var req := Validate(doc, today).value;
      && req.language == Normalize(Text(doc, LanguagePath), ValidLanguages, DefaultLanguage)
      && ReadQuota(Text(doc, QuotaPath)) == Success(req.optionsQuota)
      && req.currency == Normalize(Text(doc, CurrencyPath), ValidCurrencies, DefaultCurrency)
      && req.nationality == Normalize(Text(doc, NationalityPath), ValidNationalities, DefaultNationality)
      && ParseDate(doc.texts[StartDatePath]) == Some(req.startDate)
      && ParseDate(doc.texts[EndDatePath]) == Some(req.endDate)
  {
    var r := Validate(doc, today);
    assert TimeoutOk(doc);
    assert FirstMissing(doc, RequiredFields) == |RequiredFields|;
    AllFieldsPresent(doc);
    var quota := ReadQuota(Text(doc, QuotaPath));
    assert quota.Success?;
    assert HasCredentials(doc.parameter);
    var start, end := ParseDate(doc.texts[StartDatePath]), ParseDate(doc.texts[EndDatePath]);
    assert start.Some? && end.Some?;
    assert r.value.optionsQuota == quota.value;
    assert r.value.startDate == start.value && r.value.endDate == end.value;
  }

  lemma SampleTimeoutOk()
    ensures TimeoutOk(SampleDocument)
  {
    assert Text(SampleDocument, TimeoutPath) == Some("25000");
    assert DigitsValue("2") == 2 by { assert "2"[..0] == []; }
    DigitsValueAppend("2", '5');
    assert "2" + ['5'] == "25";
    DigitsValueAppend("25", '0');
    assert "25" + ['0'] == "250";
    DigitsValueAppend("250", '0');
    assert "250" + ['0'] == "2500";
    DigitsValueAppend("2500", '0');
    assert "2500" + ['0'] == "25000";
  }

  lemma SampleDocumentTexts()
    ensures Text(SampleDocument, LanguagePath) == Some("en")
    ensures Text(SampleDocument, CurrencyPath) == Some("USD")
    ensures Text(SampleDocument, NationalityPath) == Some("US")
  {
  }

  /** The sample request passes rules 1 to 5 and asks for 20 options. */
  lemma SampleDocumentChecks()
    ensures PassesCredentialsCheck(SampleDocument)
    ensures ReadQuota(Text(SampleDocument, QuotaPath)) == Success(20)
    ensures SampleDocument.texts[StartDatePath] == "20/02/2025"
    ensures SampleDocument.texts[EndDatePath] == "24/02/2025"
  {
    SampleTimeoutOk();
    assert FirstMissing(SampleDocument, RequiredFields) == |RequiredFields|;
    assert Text(SampleDocument, QuotaPath) == Some("20");
    assert DigitsValue("20") == 20 by { assert "20"[..1] == "2"; }
  }

  lemma SampleRequestDayNumbers()
    ensures DayNumber(Date(20, 2, 2025)) == DayNumber(Date(18, 2, 2025)) + 2
    ensures DayNumber(Date(24, 2, 2025)) == DayNumber(Date(20, 2, 2025)) + 4
  {
  }

  /** A request that passes rules 1 to 7 is accepted with the values its
      normalised fields and parsed dates give. */
  lemma AcceptedWhenAllRulesPass(doc: Document, today: Date, quota: int, start: Date, end: Date)
    requires ValidDate(today) && PassesCredentialsCheck(doc)
    requires ReadQuota(Text(doc, QuotaPath)) == Success(quota)
    requires StartDatePath in doc.texts && ParseDate(doc.texts[StartDatePath]) == Some(start)
    requires EndDatePath in doc.texts && ParseDate(doc.texts[EndDatePath]) == Some(end)
    requires DayNumber(start) >= DayNumber(today) + LeadTimeDays
    requires DayNumber(end) - DayNumber(start) >= MinimumStayNights
    ensures Validate(doc, today) == Success(NormalizedRequest(
      Normalize(Text(doc, LanguagePath), ValidLanguages, DefaultLanguage),
      quota,
      Normalize(Text(doc, CurrencyPath), ValidCurrencies, DefaultCurrency),
      Normalize(Text(doc, NationalityPath), ValidNationalities, DefaultNationality),
      start, end))
  {
  }

  /** The sample request with today no later than 18 February 2025 is
      accepted, with the values it gives and 20 options. */
  lemma SampleRequestAccepted(today: Date)
    requires ValidDate(today) && DayNumber(today) <= DayNumber(Date(18, 2, 2025))
    ensures Validate(SampleDocument, today)
        == Success(NormalizedRequest("en", 20, "USD", "US", Date(20, 2, 2025), Date(24, 2, 2025)))
  {
    SampleDocumentChecks();
    ParseSampleStartDate();
    ParseSampleEndDate();
    SampleRequestDayNumbers();
    SampleDocumentTexts();
    AcceptedWhenAllRulesPass(SampleDocument, today, 20, Date(20, 2, 2025), Date(24, 2, 2025));
  }

  /** From 19 February 2025 on, the sample request fails the lead-time rule. */
  lemma SampleRequestTooLate(today: Date)
    requires ValidDate(today) && DayNumber(today) > DayNumber(Date(18, 2, 2025))
    ensures Validate(SampleDocument, today) == Failure(LeadTimeViolation)
  {
    SampleDocumentChecks();
    ParseSampleStartDate();
    ParseSampleEndDate();
    SampleRequestDayNumbers();
    DateWindowRules(SampleDocument, today, Date(20, 2, 2025), Date(24, 2, 2025));
  }
}
