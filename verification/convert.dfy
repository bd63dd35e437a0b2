/** The conversion of a decoded lookup record into the reply message.

    Each conversion starts from a freshly constructed message and calls a
    field's setter only when the record holds that field, as the source
    does; every name map goes through the same locale filter. */
module Convert {
  import opened Wrappers
  import M = Geoip2Model
  import G = Geoip2
  import P = Proto
  import opened Locales

  /** The names a reply carries for an optional source name map: the
      filtered map when present, the empty map otherwise. */
  function ReplyNames(names: Option<M.Names>, filter: set<string>): (r: P.Names)
    ensures names.None? ==> r == map[]
    ensures names.Some? ==> r.Keys <= names.value.Keys
    ensures names.Some? ==> forall k :: k in r ==> r[k] == names.value[k]
    ensures names.Some? && filter == {} ==> r == names.value
    ensures filter != {} ==> r.Keys <= filter
    ensures names.Some? && filter != {} ==> r.Keys == names.value.Keys * filter
  {
    if names.Some? then FilterLocales(names.value, filter) else map[]
  }

  function CityFrom(c: M.City, filter: set<string>): (r: P.City)
    ensures r.geonameId == c.geonameId
    ensures r.names == ReplyNames(c.names, filter)
  {
    var r := P.EmptyCity;
    var r := if c.geonameId.Some? then r.(geonameId := Some(c.geonameId.value)) else r;
    if c.names.Some? then r.(names := FilterLocales(c.names.value, filter)) else r
  }

  function ContinentFrom(c: M.Continent, filter: set<string>): (r: P.Continent)
    ensures r.code == c.code
    ensures r.geonameId == c.geonameId
    ensures r.names == ReplyNames(c.names, filter)
  {
    var r := P.EmptyContinent;
    var r := if c.code.Some? then r.(code := Some(c.code.value)) else r;
    var r := if c.geonameId.Some? then r.(geonameId := Some(c.geonameId.value)) else r;
    if c.names.Some? then r.(names := FilterLocales(c.names.value, filter)) else r
  }

  function CountryFrom(c: M.Country, filter: set<string>): (r: P.Country)
    ensures r.geonameId == c.geonameId
    ensures r.inEuropeanUnion == c.isInEuropeanUnion
    ensures r.isoCode == c.isoCode
    ensures r.names == ReplyNames(c.names, filter)
  {
    var r := P.EmptyCountry;
    var r := if c.geonameId.Some? then r.(geonameId := Some(c.geonameId.value)) else r;
    var r := if c.isInEuropeanUnion.Some? then r.(inEuropeanUnion := Some(c.isInEuropeanUnion.value)) else r;
    var r := if c.isoCode.Some? then r.(isoCode := Some(c.isoCode.value)) else r;
    if c.names.Some? then r.(names := FilterLocales(c.names.value, filter)) else r
  }

  function RepresentedCountryFrom(c: M.RepresentedCountry, filter: set<string>): (r: P.RepresentedCountry)
    ensures r.geonameId == c.geonameId
    ensures r.isoCode == c.isoCode
    ensures r.names == ReplyNames(c.names, filter)
  {
    var r := P.EmptyRepresentedCountry;
    var r := if c.geonameId.Some? then r.(geonameId := Some(c.geonameId.value)) else r;
    var r := if c.isoCode.Some? then r.(isoCode := Some(c.isoCode.value)) else r;
    if c.names.Some? then r.(names := FilterLocales(c.names.value, filter)) else r
  }

  /** The metro code widens from 16 to 32 bits without changing value. */
  function LocationFrom(c: M.Location): (r: P.Location)
    ensures r.latitude == c.latitude
    ensures r.longitude == c.longitude
    ensures r.metroCode.Some? <==> c.metroCode.Some?
    ensures r.metroCode.Some? ==> r.metroCode.value as int == c.metroCode.value as int
    ensures r.timeZone == c.timeZone
  {
    var r := P.EmptyLocation;
    var r := if c.latitude.Some? then r.(latitude := Some(c.latitude.value)) else r;
    var r := if c.longitude.Some? then r.(longitude := Some(c.longitude.value)) else r;
    var r := if c.metroCode.Some? then r.(metroCode := Some(c.metroCode.value as int as M.u32)) else r;
    if c.timeZone.Some? then r.(timeZone := Some(c.timeZone.value)) else r
  }

  function PostalFrom(c: M.Postal): (r: P.Postal)
    ensures r.code == c.code
  {
    var r := P.EmptyPostal;
    if c.code.Some? then r.(code := Some(c.code.value)) else r
  }

  function TraitsFrom(c: M.Traits): (r: P.Traits)
    ensures r.anonymousProxy == c.isAnonymousProxy
    ensures r.satelliteProvider == c.isSatelliteProvider
  {
    var r := P.EmptyTraits;
    var r := if c.isAnonymousProxy.Some? then r.(anonymousProxy := Some(c.isAnonymousProxy.value)) else r;
    if c.isSatelliteProvider.Some? then r.(satelliteProvider := Some(c.isSatelliteProvider.value)) else r
  }

  /** A subdivision keeps its identifier and ISO code; its names are
      dropped. */
  function SubdivisionFrom(s: M.Subdivision): (r: P.Subdivision)
    ensures r.geonameId == s.geonameId
    ensures r.isoCode == s.isoCode
  {
    var r := P.EmptySubdivision;
    var r := if s.geonameId.Some? then r.(geonameId := Some(s.geonameId.value)) else r;
    if s.isoCode.Some? then r.(isoCode := Some(s.isoCode.value)) else r
  }

  /** The subdivisions converted one by one, in their original order. */
  function SubdivisionsFrom(vs: seq<M.Subdivision>): (r: seq<P.Subdivision>)
    ensures |r| == |vs|
    ensures forall i :: 0 <= i < |vs| ==> r[i].geonameId == vs[i].geonameId && r[i].isoCode == vs[i].isoCode
  {
    if |vs| == 0 then []
    else [SubdivisionFrom(vs[0])] + SubdivisionsFrom(vs[1..])
  }

  /** The top-level fields of a lookup record and of a reply. */
  datatype Field = CityField | ContinentField | CountryField | LocationField | PostalField
                 | RegisteredCountryField | RepresentedCountryField | SubdivisionsField | TraitsField

  /** Whether a record holds a field. A repeated field has no presence on
      the wire, so an empty subdivision list counts as absent. */
  predicate RecordHas(c: G.City, f: Field)
  {
    match f
    case CityField => c.city.Some?
    case ContinentField => c.continent.Some?
    case CountryField => c.country.Some?
    case LocationField => c.location.Some?
    case PostalField => c.postal.Some?
    case RegisteredCountryField => c.registeredCountry.Some?
    case RepresentedCountryField => c.representedCountry.Some?
    case SubdivisionsField => c.subdivisions.Some? && |c.subdivisions.value| > 0
    case TraitsField => c.traits.Some?
  }

  /** Whether a reply has a field set. */
  predicate ReplyHas(r: P.CityReply, f: Field)
  {
    match f
    case CityField => r.city.Some?
    case ContinentField => r.continent.Some?
    case CountryField => r.country.Some?
    case LocationField => r.location.Some?
    case PostalField => r.postal.Some?
    case RegisteredCountryField => r.registeredCountry.Some?
    case RepresentedCountryField => r.representedCountry.Some?
    case SubdivisionsField => |r.subdivisions| > 0
    case TraitsField => r.traits.Some?
  }

  /** The reply for a found record under the requested locale set. Every
      localized entity goes through the same filter; a field absent from
      the record stays unset in the reply. */
  function CityReplyFrom(c: G.City, filter: set<string>): (r: P.CityReply)
    ensures r.city.Some? <==> c.city.Some?
    ensures r.continent.Some? <==> c.continent.Some?
    ensures r.country.Some? <==> c.country.Some?
    ensures r.location.Some? <==> c.location.Some?
    ensures r.postal.Some? <==> c.postal.Some?
    ensures r.registeredCountry.Some? <==> c.registeredCountry.Some?
    ensures r.representedCountry.Some? <==> c.representedCountry.Some?
    ensures r.traits.Some? <==> c.traits.Some?
    ensures c.subdivisions.None? ==> r.subdivisions == []
    ensures c.city.Some? ==> r.city.value == CityFrom(c.city.value, filter)
    ensures c.continent.Some? ==> r.continent.value == ContinentFrom(c.continent.value, filter)
    ensures c.country.Some? ==> r.country.value == CountryFrom(c.country.value, filter)
    ensures c.location.Some? ==> r.location.value == LocationFrom(c.location.value)
    ensures c.postal.Some? ==> r.postal.value == PostalFrom(c.postal.value)
    ensures c.registeredCountry.Some? ==> r.registeredCountry.value == CountryFrom(c.registeredCountry.value, filter)
    ensures c.representedCountry.Some? ==>
      r.representedCountry.value == RepresentedCountryFrom(c.representedCountry.value, filter)
    ensures c.subdivisions.Some? ==> r.subdivisions == SubdivisionsFrom(c.subdivisions.value)
    ensures c.traits.Some? ==> r.traits.value == TraitsFrom(c.traits.value)
  {
    P.CityReply(
      city := c.city.Map((x: M.City) => CityFrom(x, filter)),
      continent := c.continent.Map((x: M.Continent) => ContinentFrom(x, filter)),
      country := c.country.Map((x: M.Country) => CountryFrom(x, filter)),
      location := c.location.Map(LocationFrom),
      postal := c.postal.Map(PostalFrom),
      registeredCountry := c.registeredCountry.Map((x: M.Country) => CountryFrom(x, filter)),
      representedCountry := c.representedCountry.Map((x: M.RepresentedCountry) => RepresentedCountryFrom(x, filter)),
      subdivisions := if c.subdivisions.Some? then SubdivisionsFrom(c.subdivisions.value) else [],
      traits := c.traits.Map(TraitsFrom))
  }

  /** A reply has exactly the top-level fields its record holds: the
      conversion never manufactures a field and never drops one. */
  lemma ReplyFieldsMatchRecord(c: G.City, filter: set<string>)
    ensures forall f :: ReplyHas(CityReplyFrom(c, filter), f) <==> RecordHas(c, f)
  {
  }

  // ---------------------------------------------------------------------
  // The locale filter touches names only.

  /** Every name map a reply carries, one slot per localized entity
      (empty for an absent entity). */
  function ReplyNameMaps(r: P.CityReply): seq<P.Names>
  {
    [ if r.city.Some? then r.city.value.names else map[],
      if r.continent.Some? then r.continent.value.names else map[],
      if r.country.Some? then r.country.value.names else map[],
      if r.registeredCountry.Some? then r.registeredCountry.value.names else map[],
      if r.representedCountry.Some? then r.representedCountry.value.names else map[] ]
  }

  /** Every name map a record holds, in the same slots as
      `ReplyNameMaps` (`None` for an absent entity or absent names). */
  function RecordNameMaps(c: G.City): seq<Option<M.Names>>
  {
    [ if c.city.Some? then c.city.value.names else None,
      if c.continent.Some? then c.continent.value.names else None,
      if c.country.Some? then c.country.value.names else None,
      if c.registeredCountry.Some? then c.registeredCountry.value.names else None,
      if c.representedCountry.Some? then c.representedCountry.value.names else None ]
  }

  /** The reply with every localized name map filtered again. */
  function Refilter(r: P.CityReply, filter: set<string>): P.CityReply
  {
    r.(city := if r.city.Some? then Some(r.city.value.(names := FilterLocales(r.city.value.names, filter))) else None,
       continent := if r.continent.Some? then
         Some(r.continent.value.(names := FilterLocales(r.continent.value.names, filter))) else None,
       country := if r.country.Some? then
         Some(r.country.value.(names := FilterLocales(r.country.value.names, filter))) else None,
       registeredCountry := if r.registeredCountry.Some? then
         Some(r.registeredCountry.value.(names := FilterLocales(r.registeredCountry.value.names, filter))) else None,
       representedCountry := if r.representedCountry.Some? then
         Some(r.representedCountry.value.(names := FilterLocales(r.representedCountry.value.names, filter))) else None)
  }

  /** Converting under a locale set is the same as converting with no
      filter and filtering every name map of the reply afterwards: the
      conversion applies one shared filter to each entity's names and
      nothing else depends on it. */
  lemma ConvertThenFilter(c: G.City, filter: set<string>)
    ensures CityReplyFrom(c, filter) == Refilter(CityReplyFrom(c, {}), filter)
  {
  }

  /** Each of the five name maps of the reply is the record's map under
      the one shared filter. */
  lemma ReplyNamesAreFiltered(c: G.City, filter: set<string>)
    ensures forall i :: 0 <= i < 5 ==>
      ReplyNameMaps(CityReplyFrom(c, filter))[i] == ReplyNames(RecordNameMaps(c)[i], filter)
  {
  }

  /** With the empty set every name map the record has is copied whole;
      with a non-empty set each keeps exactly the requested codes it has;
      every kept name is the stored one; absent names stay empty. */
  lemma ReplyNamesRespectFilter(c: G.City, filter: set<string>)
    ensures forall i :: 0 <= i < 5 && RecordNameMaps(c)[i].None? ==>
      ReplyNameMaps(CityReplyFrom(c, filter))[i] == map[]
    ensures forall i :: 0 <= i < 5 && RecordNameMaps(c)[i].Some? && filter == {} ==>
      ReplyNameMaps(CityReplyFrom(c, filter))[i] == RecordNameMaps(c)[i].value
    ensures forall i :: 0 <= i < 5 && RecordNameMaps(c)[i].Some? && filter != {} ==>
      ReplyNameMaps(CityReplyFrom(c, filter))[i].Keys == RecordNameMaps(c)[i].value.Keys * filter
    ensures forall i, k :: 0 <= i < 5 && k in ReplyNameMaps(CityReplyFrom(c, filter))[i] ==>
      && RecordNameMaps(c)[i].Some?
      && k in RecordNameMaps(c)[i].value
      && ReplyNameMaps(CityReplyFrom(c, filter))[i][k] == RecordNameMaps(c)[i].value[k]
  {
    ReplyNamesAreFiltered(c, filter);
  }
}
