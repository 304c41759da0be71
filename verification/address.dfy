/** `buildDetailedAddress` of RealLocationService.js: turns one reverse
    geocoding result into a display address. Every field of the geocoding
    result is a string with "" standing for a missing value; the code only
    tests the fields for truthiness, so null, undefined and "" behave
    alike. */
module Address {
  import opened Wrappers

  datatype AddressData = AddressData(
    street: string,
    streetNumber: string,
    district: string,
    subregion: string,
    city: string,
    region: string,
    country: string
  )

  /** The returned object; `null` is None. */
  datatype DetailedAddress = DetailedAddress(
    full: string,
    street: Option<string>,
    neighborhood: Option<string>,
    city: Option<string>,
    state: Option<string>,
    country: Option<string>
  )

  const Separator: string := ", "

  /** The country that is left out of the full address. */
  const HomeCountry: string := "Mozambique"

  function SumLengths(ps: seq<string>): nat {
    if |ps| == 0 then 0 else |ps[0]| + SumLengths(ps[1..])
  }

  /** `ps.join(', ')`. */
  function Join(ps: seq<string>): (r: string)
    ensures |ps| == 0 ==> r == ""
    ensures |ps| > 0 ==> |r| == SumLengths(ps) + |Separator| * (|ps| - 1)
    ensures |ps| > 0 ==> r[..|ps[0]|] == ps[0]
  {
    if |ps| == 0 then ""
    else if |ps| == 1 then ps[0]
    else ps[0] + Separator + Join(ps[1..])
  }

  /** `s || null`. */
  function OrNull(s: string): (r: Option<string>)
    ensures r.None? <==> s == ""
    ensures r.Some? ==> r.value == s
  {
    if s == "" then None else Some(s)
  }

  /** `if (x) list.push(x)`, or nothing when the field is `hidden`. */
  function Shown(x: string, hidden: bool): (r: seq<string>)
    ensures hidden || x == "" ==> r == []
    ensures !hidden && x != "" ==> r == [x]
  {
    if !hidden && x != "" then [x] else []
  }

  predicate AllPresent(ps: seq<string>) {
    forall i :: 0 <= i < |ps| ==> ps[i] != ""
  }

  /** `streetParts`: the street and the house number, when present. */
  function StreetParts(a: AddressData): (r: seq<string>)
    ensures AllPresent(r)
  {
    Shown(a.street, false) + Shown(a.streetNumber, false)
  }

  /** The first entry of `parts`: the street line, when there is one. */
  function StreetLinePart(a: AddressData): (r: seq<string>)
    ensures AllPresent(r)
  {
    var streetParts := StreetParts(a);
    JoinEmptyIff(streetParts);
    if |streetParts| > 0 then [Join(streetParts)] else []
  }

  /** `parts`: street, district, subregion, city, region and country, with
      a subregion equal to the district, a region equal to the city and
      the home country left out. */
  function Parts(a: AddressData): (r: seq<string>)
    ensures AllPresent(r)
  {
    var r := StreetLinePart(a)
      + Shown(a.district, false)
      + Shown(a.subregion, a.subregion == a.district)
      + Shown(a.city, false)
      + Shown(a.region, a.region == a.city)
      + Shown(a.country, a.country == HomeCountry);
    r
  }

  /** `buildDetailedAddress(addressData)`. */
  function BuildDetailedAddress(a: AddressData): (r: DetailedAddress)
    ensures r.full == "" <==>
              && a.street == "" && a.streetNumber == "" && a.district == "" && a.subregion == ""
              && a.city == "" && a.region == "" && (a.country == "" || a.country == HomeCountry)
    ensures r.street.None? <==> a.street == "" && a.streetNumber == ""
    ensures a.street != "" && a.streetNumber != "" ==> r.street == Some(a.street + Separator + a.streetNumber)
    ensures a.streetNumber == "" ==> r.street == OrNull(a.street)
    ensures a.street == "" ==> r.street == OrNull(a.streetNumber)
    ensures r.neighborhood == if a.district != "" then Some(a.district) else OrNull(a.subregion)
    ensures r.city == OrNull(a.city) && r.state == OrNull(a.region) && r.country == OrNull(a.country)
  {
    var parts := Parts(a);
    JoinEmptyIff(parts);
    JoinEmptyIff(StreetParts(a));
    DetailedAddress(
      Join(parts),
      OrNull(Join(StreetParts(a))),
      if a.district != "" then Some(a.district) else OrNull(a.subregion),
      OrNull(a.city),
      OrNull(a.region),
      OrNull(a.country))
  }

  /** For every address, `full` is the shown fields joined by ", ": the
      street line (street and number joined, or whichever one is present),
      the district, a subregion that differs from the district, the city, a
      region that differs from the city, and a country other than
      Mozambique, in that order. */
  lemma FullListsShownFields(a: AddressData)
    ensures BuildDetailedAddress(a).full == Join(
              (if a.street != "" && a.streetNumber != "" then [a.street + ", " + a.streetNumber]
               else if a.street != "" || a.streetNumber != "" then [a.street + a.streetNumber]
               else [])
              + (if a.district != "" then [a.district] else [])
              + (if a.subregion != "" && a.subregion != a.district then [a.subregion] else [])
              + (if a.city != "" then [a.city] else [])
              + (if a.region != "" && a.region != a.city then [a.region] else [])
              + (if a.country != "" && a.country != HomeCountry then [a.country] else []))
  {
    var streetParts := StreetParts(a);
    if a.street != "" && a.streetNumber != "" {
      StreetLine(a);
      assert streetParts == [a.street, a.streetNumber];
      assert StreetLinePart(a) == [a.street + ", " + a.streetNumber];
    } else if a.street != "" {
      assert streetParts == [a.street];
      assert a.street + a.streetNumber == a.street;
    } else if a.streetNumber != "" {
      assert streetParts == [a.streetNumber];
      assert a.street + a.streetNumber == a.streetNumber;
    } else {
      assert StreetLinePart(a) == [];
    }
  }

  /** Joining non-empty parts gives "" exactly when there are none. */
  lemma JoinEmptyIff(ps: seq<string>)
    requires AllPresent(ps)
    ensures Join(ps) == "" <==> |ps| == 0
  {
    if |ps| > 0 {
      assert |ps[0]| > 0;
    }
  }

  /** Joining one more part appends the separator and that part. */
  lemma {:induction false} JoinSnoc(ps: seq<string>, p: string)
    requires |ps| > 0
    ensures Join(ps + [p]) == Join(ps) + Separator + p
  {
    if |ps| == 1 {
      assert (ps + [p])[1..] == [p];
    } else {
      assert (ps + [p])[1..] == ps[1..] + [p];
      JoinSnoc(ps[1..], p);
    }
  }

  /** The subregion shows up in the full address exactly when it is
      present and differs from the district. */
  lemma SubregionShownIff(a: AddressData)
    ensures Parts(a) == Parts(a.(subregion := "")) <==> a.subregion == "" || a.subregion == a.district
  {
    PartsShape(a);
    PartsShape(a.(subregion := ""));
  }

  /** The region shows up in the full address exactly when it is present
      and differs from the city. */
  lemma RegionShownIff(a: AddressData)
    ensures Parts(a) == Parts(a.(region := "")) <==> a.region == "" || a.region == a.city
  {
    PartsShape(a);
    PartsShape(a.(region := ""));
  }

  /** The country shows up in the full address exactly when it is present
      and is not Mozambique. */
  lemma CountryShownIff(a: AddressData)
    ensures Parts(a) == Parts(a.(country := "")) <==> a.country == "" || a.country == HomeCountry
  {
    PartsShape(a);
    PartsShape(a.(country := ""));
  }

  /** The number of parts is the number of fields that are shown. */
  lemma PartsShape(a: AddressData)
    ensures |Parts(a)| ==
              (if a.street != "" || a.streetNumber != "" then 1 else 0)
              + (if a.district != "" then 1 else 0)
              + (if a.subregion != "" && a.subregion != a.district then 1 else 0)
              + (if a.city != "" then 1 else 0)
              + (if a.region != "" && a.region != a.city then 1 else 0)
              + (if a.country != "" && a.country != HomeCountry then 1 else 0)
  {
  }

  /** The street line is the street and the number joined by ", ". */
  lemma StreetLine(a: AddressData)
    requires a.street != "" && a.streetNumber != ""
    ensures BuildDetailedAddress(a).street == Some(a.street + ", " + a.streetNumber)
  {
    assert StreetParts(a) == [a.street, a.streetNumber];
    assert StreetLinePart(a) == [Join(StreetParts(a))];
    assert StreetParts(a)[1..] == [a.streetNumber];
  }

  /** With every field present, distinct from its neighbour and outside
      Mozambique, the full address lists all seven fields in order. */
  lemma FullWhenAllShown(a: AddressData)
    requires a.street != "" && a.streetNumber != "" && a.district != "" && a.city != ""
    requires a.subregion != "" && a.subregion != a.district
    requires a.region != "" && a.region != a.city
    requires a.country != "" && a.country != HomeCountry
    ensures BuildDetailedAddress(a).full ==
              a.street + ", " + a.streetNumber + ", " + a.district + ", " + a.subregion + ", "
              + a.city + ", " + a.region + ", " + a.country
  {
    StreetLine(a);
    var p1 := [a.street + ", " + a.streetNumber];
    var p2 := p1 + [a.district];
    var p3 := p2 + [a.subregion];
    var p4 := p3 + [a.city];
    var p5 := p4 + [a.region];
    var p6 := p5 + [a.country];
    assert Parts(a) == p6;
    JoinSnoc(p1, a.district);
    JoinSnoc(p2, a.subregion);
    JoinSnoc(p3, a.city);
    JoinSnoc(p4, a.region);
    JoinSnoc(p5, a.country);
  }
}
