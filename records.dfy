/**
  * Airport records as the lookup module and the data scripts see them, the
  * exact-match filter `airportsData.filter(airport => airport.<field> === code)`
  * that every lookup is built on, and the guarded one-time load of the dataset.
  */
module Records {

  /** A code-valued property of a parsed JSON record: missing (or not a string), or a string. */
  datatype Field = Absent | Str(value: string)

  /**
    * The properties of an airport record that the core reads. The record has
    * more (name, coordinates, links, ...), which no modelled operation looks at.
    */
  datatype Airport = Airport(
    iata: Field,
    icao: Field,
    cityCode: Field,       // `city_code`
    countryCode: Field,    // `country_code`
    continent: Field,      // `continent`, read by src/index.js
    continentCode: Field   // `continent_code`, read by the older index.js
  )

  /** The property a lookup compares against its argument. */
  datatype Key = Iata | Icao | CityCode | CountryCode | Continent | ContinentCode

  function FieldOf(a: Airport, k: Key): Field {
    match k
    case Iata => a.iata
    case Icao => a.icao
    case CityCode => a.cityCode
    case CountryCode => a.countryCode
    case Continent => a.continent
    case ContinentCode => a.continentCode
  }

  /** `airport.<field> === code` for a string `code`: a missing property never equals a string. */
  predicate Has(a: Airport, k: Key, code: string) {
    FieldOf(a, k) == Str(code)
  }

  /**
    * `data.filter(airport => airport.<field> === code)`: the records whose
    * property equals `code`, visited in dataset order and appended as found.
    */
  function Select(data: seq<Airport>, k: Key, code: string): (r: seq<Airport>)
    ensures |r| <= |data|
    ensures forall a :: a in r ==> a in data && Has(a, k, code)
    ensures forall a :: a in data && Has(a, k, code) ==> a in r
  {
    if data == [] then []
    else
      var init, last := data[..|data| - 1], data[|data| - 1];
      assert data == init + [last];
      Select(init, k, code) + (if Has(last, k, code) then [last] else [])
  }

  /** Filtering one more record appends it exactly when it matches. */
  lemma SelectSnoc(data: seq<Airport>, a: Airport, k: Key, code: string)
    ensures Select(data + [a], k, code) == Select(data, k, code) + (if Has(a, k, code) then [a] else [])
  {
    assert (data + [a])[..|data|] == data;
  }

  /** The positions of the matching records, in ascending order: the reference for `Select`. */
  function MatchIndices(data: seq<Airport>, k: Key, code: string): (idx: seq<nat>)
    ensures forall j :: 0 <= j < |idx| ==> idx[j] < |data| && Has(data[idx[j]], k, code)
    ensures forall j, j' :: 0 <= j < j' < |idx| ==> idx[j] < idx[j']
    ensures forall i :: 0 <= i < |data| && Has(data[i], k, code) ==> i in idx
  {
    if data == [] then []
    else
      var init := data[..|data| - 1];
      MatchIndices(init, k, code) + (if Has(data[|data| - 1], k, code) then [|data| - 1] else [])
  }

  /** `r` holds the records of `data` at the positions `idx`, one by one. */
  ghost predicate RecordsAt(r: seq<Airport>, idx: seq<nat>, data: seq<Airport>) {
    |r| == |idx| && forall j :: 0 <= j < |idx| ==> idx[j] < |data| && r[j] == data[idx[j]]
  }

  /** `r` holds the records at the matching positions, one by one and in dataset order. */
  ghost predicate IsOrderedFilter(r: seq<Airport>, data: seq<Airport>, k: Key, code: string) {
    RecordsAt(r, MatchIndices(data, k, code), data)
  }

  /** Appending a record, and taking it when it is selected, keeps the records aligned with their positions. */
  lemma RecordsAtSnoc(r: seq<Airport>, idx: seq<nat>, init: seq<Airport>, a: Airport, take: bool)
    requires RecordsAt(r, idx, init)
    ensures RecordsAt(r + (if take then [a] else []), idx + (if take then [|init|] else []), init + [a])
  {
    var data := init + [a];
    forall j | 0 <= j < |idx|
      ensures data[idx[j]] == init[idx[j]]
    {
    }
  }

  /**
    * The filter result is exactly the records at the matching positions, in
    * position order: no matching record is dropped and none is reordered.
    */
  lemma {:induction false} SelectIsOrderedFilter(data: seq<Airport>, k: Key, code: string)
    ensures IsOrderedFilter(Select(data, k, code), data, k, code)
  {
    if data != [] {
      var init, last := data[..|data| - 1], data[|data| - 1];
      assert data == init + [last];
      SelectIsOrderedFilter(init, k, code);
      RecordsAtSnoc(Select(init, k, code), MatchIndices(init, k, code), init, last, Has(last, k, code));
    }
  }

  /** The filter is empty exactly when no record carries the code. */
  lemma {:induction false} SelectEmptyIff(data: seq<Airport>, k: Key, code: string)
    ensures Select(data, k, code) == [] <==> forall a :: a in data ==> !Has(a, k, code)
  {
    if data != [] {
      var init, last := data[..|data| - 1], data[|data| - 1];
      SelectEmptyIff(init, k, code);
      assert data == init + [last];
    }
  }

  /** Two distinct records carrying a code make it occur more than once. */
  lemma TwoRecordsRepeat(data: seq<Airport>, k: Key, code: string, i: nat, j: nat)
    requires i < j < |data| && Has(data[i], k, code) && Has(data[j], k, code)
    ensures |Select(data, k, code)| > 1
  {
    SelectIsOrderedFilter(data, k, code);
    var idx := MatchIndices(data, k, code);
    assert i in idx && j in idx;
    var a :| 0 <= a < |idx| && idx[a] == i;
    var b :| 0 <= b < |idx| && idx[b] == j;
    assert a != b;
  }

  /** A code that occurs more than once is carried by two distinct records. */
  lemma RepeatedHasTwoRecords(data: seq<Airport>, k: Key, code: string) returns (i: nat, j: nat)
    requires |Select(data, k, code)| > 1
    ensures i < j < |data| && Has(data[i], k, code) && Has(data[j], k, code)
  {
    SelectIsOrderedFilter(data, k, code);
    var idx := MatchIndices(data, k, code);
    i, j := idx[0], idx[1];
  }

  /**
    * The dataset after `loadJSONData()`: `if (airportsData.length) return;`
    * keeps a non-empty dataset, otherwise the decoded file replaces it.
    */
  function AfterLoad(current: seq<Airport>, decoded: seq<Airport>): (r: seq<Airport>)
    ensures r == current || r == decoded
    ensures r == [] <==> current == [] && decoded == []
  {
    if |current| > 0 then current else decoded
  }

  /** Once the dataset is non-empty, every further load leaves it as it is. */
  lemma LoadedStaysLoaded(current: seq<Airport>, decoded: seq<Airport>, later: seq<Airport>)
    ensures AfterLoad(current, decoded) != [] ==>
      AfterLoad(AfterLoad(current, decoded), later) == AfterLoad(current, decoded)
  {
  }
}
