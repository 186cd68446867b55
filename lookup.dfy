/**
  * The validated lookup module (src/index.js): a module-level dataset loaded
  * once, and five exact-match lookups that first check the argument's format,
  * then filter the dataset in order, and fail when nothing matches.
  */
module Lookup {
  import opened Records
  import opened Text

  /** The two `Error`s a lookup throws, each with its message. */
  datatype LookupError = FormatError(message: string) | NotFound(message: string)

  /** A lookup either returns its (non-empty) list of records or throws. */
  datatype Result = Success(value: seq<Airport>) | Failure(error: LookupError)

  /** Outcome of `validateRegex`: returns normally, or throws a format error. */
  datatype Validation = Pass | Fail(error: LookupError)

  /** The anchored code patterns: `^[A-Z]{n}$` and `^[A-Z0-9]{n}$`. */
  datatype Pattern = UpperLetters(length: nat) | UpperLettersOrDigits(length: nat)

  predicate IsUpperLetter(c: char) {
    'A' <= c <= 'Z'
  }

  /** The character class of the pattern. */
  predicate Admits(p: Pattern, c: char) {
    match p
    case UpperLetters(_) => IsUpperLetter(c)
    case UpperLettersOrDigits(_) => IsUpperLetter(c) || IsDigit(c)
  }

  /** `value.match(pattern)` is non-null: exactly `length` characters, all in the class. */
  predicate FullMatch(value: string, p: Pattern) {
    |value| == p.length && forall i :: 0 <= i < |value| ==> Admits(p, value[i])
  }

  const IataPattern: Pattern := UpperLetters(3)
  const IcaoPattern: Pattern := UpperLettersOrDigits(4)
  const CityCodePattern: Pattern := UpperLetters(3)
  const CountryCodePattern: Pattern := UpperLetters(2)
  const ContinentPattern: Pattern := UpperLetters(2)

  const IataFormatMessage := "Invalid IATA format. Please provide a 3-letter uppercase code, e.g., 'AAA'."
  const IcaoFormatMessage := "Invalid ICAO format. Please provide a 4-character uppercase code, e.g., 'NTGA'."
  const CityCodeFormatMessage := "Invalid City Code format. Please provide a 3-letter uppercase code, e.g., 'NYC'."
  const CountryCodeFormatMessage := "Invalid Country Code format. Please provide a 2-letter uppercase code, e.g., 'US'."
  const ContinentFormatMessage := "Invalid Continent Code format. Please provide a 2-letter uppercase code, e.g., 'AS'."

  const IataNotFound := "No data found for IATA code: "
  const IcaoNotFound := "No data found for ICAO code: "
  const CityCodeNotFound := "No data found for City Code: "
  const CountryCodeNotFound := "No data found for Country Code: "
  const ContinentNotFound := "No data found for Continent Code: "

  /** `validateRegex(value, pattern, errorMessage)`: throws `errorMessage` unless the value matches. */
  function ValidateRegex(value: string, pattern: Pattern, errorMessage: string): (v: Validation)
    ensures v.Pass? <==> |value| == pattern.length && forall i :: 0 <= i < |value| ==> Admits(pattern, value[i])
    ensures v.Fail? ==> v.error == FormatError(errorMessage)
  {
    if FullMatch(value, pattern) then Pass else Fail(FormatError(errorMessage))
  }

  /**
    * The shape shared by the five lookups: validate, filter, and throw
    * "No data found ..." naming the code when the filter is empty.
    */
  function FilterOrThrow(data: seq<Airport>, k: Key, code: string, pattern: Pattern,
                         formatMessage: string, notFoundLabel: string): (r: Result)
    ensures !FullMatch(code, pattern) <==> r == Failure(FormatError(formatMessage))
    ensures r == Failure(NotFound(notFoundLabel + code)) <==>
      FullMatch(code, pattern) && forall a :: a in data ==> !Has(a, k, code)
    ensures r.Success? <==> FullMatch(code, pattern) && exists a :: a in data && Has(a, k, code)
    ensures r.Success? ==> r.value == Select(data, k, code) && |r.value| > 0
  {
    match ValidateRegex(code, pattern, formatMessage)
    case Fail(e) => Failure(e)
    case Pass =>
      var results := Select(data, k, code);
      if |results| == 0 then Failure(NotFound(notFoundLabel + code))
      else
        assert results[0] in data && Has(results[0], k, code);
        Success(results)
  }

  /** The module's state: the dataset, `let airportsData = []`, filled by `loadJSONData`. */
  class Airports {
    var airportsData: seq<Airport>

    /** Loading the module: the dataset starts empty and `loadJSONData()` runs once. */
    constructor (decoded: seq<Airport>)
      ensures airportsData == decoded
    {
      airportsData := [];
      new;
      LoadJSONData(decoded);
    }

    /**
      * `loadJSONData()`: when the dataset is still empty, replace it by the
      * decoded contents of the data file (given here as `decoded`).
      */
    method LoadJSONData(decoded: seq<Airport>)
      modifies this
      ensures airportsData == AfterLoad(old(airportsData), decoded)
      ensures old(airportsData) != [] ==> airportsData == old(airportsData)
      ensures old(airportsData) == [] ==> airportsData == decoded
    {
      if |airportsData| > 0 {
        return;
      }
      airportsData := decoded;
    }

    function GetAirportByIata(iataCode: string): (r: Result)
      reads this
      ensures !FullMatch(iataCode, IataPattern) ==> r == Failure(FormatError(IataFormatMessage))
      ensures FullMatch(iataCode, IataPattern) && (forall a :: a in airportsData ==> a.iata != Str(iataCode)) ==>
        r == Failure(NotFound(IataNotFound + iataCode))
      ensures r.Success? <==> FullMatch(iataCode, IataPattern) && exists a :: a in airportsData && a.iata == Str(iataCode)
      ensures r.Success? ==> |r.value| > 0 && forall a :: a in r.value ==> a.iata == Str(iataCode)
      ensures r.Success? ==> r.value == Select(airportsData, Iata, iataCode)
    {
      FilterOrThrow(airportsData, Iata, iataCode, IataPattern, IataFormatMessage, IataNotFound)
    }

    function GetAirportByIcao(icaoCode: string): (r: Result)
      reads this
      ensures !FullMatch(icaoCode, IcaoPattern) ==> r == Failure(FormatError(IcaoFormatMessage))
      ensures FullMatch(icaoCode, IcaoPattern) && (forall a :: a in airportsData ==> a.icao != Str(icaoCode)) ==>
        r == Failure(NotFound(IcaoNotFound + icaoCode))
      ensures r.Success? <==> FullMatch(icaoCode, IcaoPattern) && exists a :: a in airportsData && a.icao == Str(icaoCode)
      ensures r.Success? ==> |r.value| > 0 && forall a :: a in r.value ==> a.icao == Str(icaoCode)
      ensures r.Success? ==> r.value == Select(airportsData, Icao, icaoCode)
    {
      FilterOrThrow(airportsData, Icao, icaoCode, IcaoPattern, IcaoFormatMessage, IcaoNotFound)
    }

    function GetAirportByCityCode(cityCode: string): (r: Result)
      reads this
      ensures !FullMatch(cityCode, CityCodePattern) ==> r == Failure(FormatError(CityCodeFormatMessage))
      ensures FullMatch(cityCode, CityCodePattern) && (forall a :: a in airportsData ==> a.cityCode != Str(cityCode)) ==>
        r == Failure(NotFound(CityCodeNotFound + cityCode))
      ensures r.Success? <==> FullMatch(cityCode, CityCodePattern) && exists a :: a in airportsData && a.cityCode == Str(cityCode)
      ensures r.Success? ==> |r.value| > 0 && forall a :: a in r.value ==> a.cityCode == Str(cityCode)
      ensures r.Success? ==> r.value == Select(airportsData, CityCode, cityCode)
    {
      FilterOrThrow(airportsData, CityCode, cityCode, CityCodePattern, CityCodeFormatMessage, CityCodeNotFound)
    }

    function GetAirportByCountryCode(countryCode: string): (r: Result)
      reads this
      ensures !FullMatch(countryCode, CountryCodePattern) ==> r == Failure(FormatError(CountryCodeFormatMessage))
      ensures FullMatch(countryCode, CountryCodePattern) && (forall a :: a in airportsData ==> a.countryCode != Str(countryCode)) ==>
        r == Failure(NotFound(CountryCodeNotFound + countryCode))
      ensures r.Success? <==> FullMatch(countryCode, CountryCodePattern) && exists a :: a in airportsData && a.countryCode == Str(countryCode)
      ensures r.Success? ==> |r.value| > 0 && forall a :: a in r.value ==> a.countryCode == Str(countryCode)
      ensures r.Success? ==> r.value == Select(airportsData, CountryCode, countryCode)
    {
      FilterOrThrow(airportsData, CountryCode, countryCode, CountryCodePattern, CountryCodeFormatMessage, CountryCodeNotFound)
    }

    function GetAirportByContinent(continentCode: string): (r: Result)
      reads this
      ensures !FullMatch(continentCode, ContinentPattern) ==> r == Failure(FormatError(ContinentFormatMessage))
      ensures FullMatch(continentCode, ContinentPattern) && (forall a :: a in airportsData ==> a.continent != Str(continentCode)) ==>
        r == Failure(NotFound(ContinentNotFound + continentCode))
      ensures r.Success? <==> FullMatch(continentCode, ContinentPattern) && exists a :: a in airportsData && a.continent == Str(continentCode)
      ensures r.Success? ==> |r.value| > 0 && forall a :: a in r.value ==> a.continent == Str(continentCode)
      ensures r.Success? ==> r.value == Select(airportsData, Continent, continentCode)
    {
      FilterOrThrow(airportsData, Continent, continentCode, ContinentPattern, ContinentFormatMessage, ContinentNotFound)
    }
  }

  /**
    * ICAO codes may contain digits, IATA and city codes may not: a three- or
    * four-character code with a digit is rejected as an IATA or city code but
    * never for its format as an ICAO code.
    */
  lemma DigitsOnlyInIcao(m: Airports, code: string, i: nat)
    requires i < |code| && IsDigit(code[i])
    ensures m.GetAirportByIata(code) == Failure(FormatError(IataFormatMessage))
    ensures m.GetAirportByCityCode(code) == Failure(FormatError(CityCodeFormatMessage))
    ensures FullMatch(code, IcaoPattern) ==> !m.GetAirportByIcao(code).Failure? || m.GetAirportByIcao(code).error.NotFound?
  {
  }

  /** The format check happens before the data is consulted: a malformed code fails the same way on every dataset. */
  lemma FormatErrorIgnoresData(m1: Airports, m2: Airports, code: string)
    requires !FullMatch(code, IataPattern)
    ensures m1.GetAirportByIata(code) == m2.GetAirportByIata(code)
  {
  }

  /** A successful IATA lookup returns every matching record, in dataset order. */
  lemma IataResultIsOrderedFilter(m: Airports, code: string)
    requires m.GetAirportByIata(code).Success?
    ensures IsOrderedFilter(m.GetAirportByIata(code).value, m.airportsData, Iata, code)
  {
    SelectIsOrderedFilter(m.airportsData, Iata, code);
  }
}
