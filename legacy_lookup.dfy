/**
  * The older lookup module (index.js): the same guarded one-time load, and
  * five lookups that filter the dataset without checking the argument and
  * never throw. Its continent lookup compares `continent_code`.
  */
module LegacyLookup {
  import opened Records
  import Lookup

  /** The module's state: the dataset, `let airportsData = []`, filled by `loadJSONData`. */
  class Airports {
    var airportsData: seq<Airport>

    /** Loading the module: the dataset starts empty and `loadJSONData()` runs once. */
    constructor (decoded: seq<Airport>)
      ensures airportsData == decoded
    {
      airportsData := [];
      new;
      LoadJSONData(decoded);
    }

    /**
      * `loadJSONData()`: when the dataset is still empty, replace it by the
      * decoded contents of the data file (given here as `decoded`).
      */
    method LoadJSONData(decoded: seq<Airport>)
      modifies this
      ensures airportsData == AfterLoad(old(airportsData), decoded)
      ensures old(airportsData) != [] ==> airportsData == old(airportsData)
      ensures old(airportsData) == [] ==> airportsData == decoded
    {
      if |airportsData| > 0 {
        return;
      }
      airportsData := decoded;
    }

    /** `airportsData.filter(airport => airport.iata === code)`: every matching record, in dataset order. */
    function GetAirportByIata(iataCode: string): (r: seq<Airport>)
      reads this
      ensures |r| <= |airportsData|
      ensures forall a :: a in r ==> a in airportsData && a.iata == Str(iataCode)
      ensures forall a :: a in airportsData && a.iata == Str(iataCode) ==> a in r
      ensures IsOrderedFilter(r, airportsData, Iata, iataCode)
    {
      SelectIsOrderedFilter(airportsData, Iata, iataCode);
      Select(airportsData, Iata, iataCode)
    }

    /** `airportsData.filter(airport => airport.icao === code)`: every matching record, in dataset order. */
    function GetAirportByIcao(icaoCode: string): (r: seq<Airport>)
      reads this
      ensures |r| <= |airportsData|
      ensures forall a :: a in r ==> a in airportsData && a.icao == Str(icaoCode)
      ensures forall a :: a in airportsData && a.icao == Str(icaoCode) ==> a in r
      ensures IsOrderedFilter(r, airportsData, Icao, icaoCode)
    {
      SelectIsOrderedFilter(airportsData, Icao, icaoCode);
      Select(airportsData, Icao, icaoCode)
    }

    /** `airportsData.filter(airport => airport.city_code === code)`: every matching record, in dataset order. */
    function GetAirportByCityCode(cityCode: string): (r: seq<Airport>)
      reads this
      ensures |r| <= |airportsData|
      ensures forall a :: a in r ==> a in airportsData && a.cityCode == Str(cityCode)
      ensures forall a :: a in airportsData && a.cityCode == Str(cityCode) ==> a in r
      ensures IsOrderedFilter(r, airportsData, CityCode, cityCode)
    {
      SelectIsOrderedFilter(airportsData, CityCode, cityCode);
      Select(airportsData, CityCode, cityCode)
    }

    /** `airportsData.filter(airport => airport.country_code === code)`: every matching record, in dataset order. */
    function GetAirportByCountryCode(countryCode: string): (r: seq<Airport>)
      reads this
      ensures |r| <= |airportsData|
      ensures forall a :: a in r ==> a in airportsData && a.countryCode == Str(countryCode)
      ensures forall a :: a in airportsData && a.countryCode == Str(countryCode) ==> a in r
      ensures IsOrderedFilter(r, airportsData, CountryCode, countryCode)
    {
      SelectIsOrderedFilter(airportsData, CountryCode, countryCode);
      Select(airportsData, CountryCode, countryCode)
    }

    /**
      * `airportsData.filter(airport => airport.continent_code === code)`: every
      * matching record, in dataset order. It compares `continent_code`, not
      * `continent` as src/index.js does.
      */
    function GetAirportByContinent(continentCode: string): (r: seq<Airport>)
      reads this
      ensures |r| <= |airportsData|
      ensures forall a :: a in r ==> a in airportsData && a.continentCode == Str(continentCode)
      ensures forall a :: a in airportsData && a.continentCode == Str(continentCode) ==> a in r
      ensures IsOrderedFilter(r, airportsData, ContinentCode, continentCode)
    {
      SelectIsOrderedFilter(airportsData, ContinentCode, continentCode);
      Select(airportsData, ContinentCode, continentCode)
    }
  }

  /**
    * The legacy continent lookup never looks at `continent`: on a dataset
    * whose records carry no `continent_code`, it finds nothing for any code.
    */
  lemma ContinentLookupNeedsContinentCode(m: Airports, code: string)
    requires forall a :: a in m.airportsData ==> a.continentCode == Absent
    ensures m.GetAirportByContinent(code) == []
  {
    SelectEmptyIff(m.airportsData, ContinentCode, code);
  }

  /**
    * The two modules disagree on the continent lookup: a dataset holding one
    * record whose `continent` is "EU" and which has no `continent_code`
    * answers "EU" with that record in src/index.js and with nothing here.
    */
  lemma ContinentLookupsDiffer(legacy: Airports, validated: Lookup.Airports)
    requires legacy.airportsData == validated.airportsData ==
      [Airport(Absent, Absent, Absent, Absent, Str("EU"), Absent)]
    ensures legacy.GetAirportByContinent("EU") == []
    ensures validated.GetAirportByContinent("EU") == Lookup.Success(validated.airportsData)
  {
    ContinentLookupNeedsContinentCode(legacy, "EU");
  }
}
