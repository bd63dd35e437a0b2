/** The reply messages of the GeoIp lookup RPC.

    A scalar field is an `Option`: `None` means its setter was never
    called, so the field is unset on the wire (and a reader of the message
    sees the type's default). A sub-message field is an `Option` for the
    same reason. Map and repeated fields have no presence: they are empty
    unless set. */
module Proto {
  import opened Wrappers
  import M = Geoip2Model

  type Names = map<string, string>

  datatype City = City(geonameId: Option<M.u32>, names: Names)

  datatype Continent = Continent(code: Option<string>, geonameId: Option<M.u32>, names: Names)

  datatype Country = Country(
    geonameId: Option<M.u32>,
    inEuropeanUnion: Option<bool>,
    isoCode: Option<string>,
    names: Names)

  datatype RepresentedCountry = RepresentedCountry(
    geonameId: Option<M.u32>,
    isoCode: Option<string>,
    names: Names)

  datatype Location = Location(
    latitude: Option<M.Float64>,
    longitude: Option<M.Float64>,
    metroCode: Option<M.u32>,
    timeZone: Option<string>)

  datatype Postal = Postal(code: Option<string>)

  datatype Subdivision = Subdivision(geonameId: Option<M.u32>, isoCode: Option<string>)

  datatype Traits = Traits(anonymousProxy: Option<bool>, satelliteProvider: Option<bool>)

  datatype CityReply = CityReply(
    city: Option<City>,
    continent: Option<Continent>,
    country: Option<Country>,
    location: Option<Location>,
    postal: Option<Postal>,
    registeredCountry: Option<Country>,
    representedCountry: Option<RepresentedCountry>,
    subdivisions: seq<Subdivision>,
    traits: Option<Traits>)

  /** Freshly constructed messages, every field unset. */
  const EmptyCity := City(None, map[])
  const EmptyContinent := Continent(None, None, map[])
  const EmptyCountry := Country(None, None, None, map[])
  const EmptyRepresentedCountry := RepresentedCountry(None, None, map[])
  const EmptyLocation := Location(None, None, None, None)
  const EmptyPostal := Postal(None)
  const EmptySubdivision := Subdivision(None, None)
  const EmptyTraits := Traits(None, None)
}
