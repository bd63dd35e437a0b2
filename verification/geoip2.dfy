/** The record shapes the external MaxMind reader decodes from the
    database (the `geoip2::model` entities). Every field is independently
    optional: the database may omit any of them. */
module Geoip2Model {
  import opened Wrappers

  /** Unsigned machine integers as the reader declares them. */
  newtype u16 = x: int | 0 <= x < 0x1_0000
  newtype u32 = x: int | 0 <= x < 0x1_0000_0000

  /** A 64-bit float, kept as its bit pattern: coordinates are passed
      through and never computed with. */
  datatype Float64 = Float64(bits: bv64)

  /** Locale code (`"en"`, `"zh-CN"`, ...) to localized display name. */
  type Names = map<string, string>

  datatype City = City(geonameId: Option<u32>, names: Option<Names>)

  datatype Continent = Continent(code: Option<string>, geonameId: Option<u32>, names: Option<Names>)

  datatype Country = Country(
    geonameId: Option<u32>,
    isInEuropeanUnion: Option<bool>,
    isoCode: Option<string>,
    names: Option<Names>)

  datatype RepresentedCountry = RepresentedCountry(
    geonameId: Option<u32>,
    isoCode: Option<string>,
    names: Option<Names>)

  datatype Location = Location(
    latitude: Option<Float64>,
    longitude: Option<Float64>,
    metroCode: Option<u16>,
    timeZone: Option<string>)

  datatype Postal = Postal(code: Option<string>)

  /** A subdivision also carries names, which the reply does not keep. */
  datatype Subdivision = Subdivision(geonameId: Option<u32>, isoCode: Option<string>, names: Option<Names>)

  datatype Traits = Traits(isAnonymousProxy: Option<bool>, isSatelliteProvider: Option<bool>)
}

/** What one successful lookup returns, and how a lookup or an open fails. */
module Geoip2 {
  import opened Wrappers
  import M = Geoip2Model

  /** The decoded `geoip2::City` record of one address. */
  datatype City = City(
    city: Option<M.City>,
    continent: Option<M.Continent>,
    country: Option<M.Country>,
    location: Option<M.Location>,
    postal: Option<M.Postal>,
    registeredCountry: Option<M.Country>,
    representedCountry: Option<M.RepresentedCountry>,
    subdivisions: Option<seq<M.Subdivision>>,
    traits: Option<M.Traits>)

  /** The reader's five error kinds, each with its message. */
  datatype MaxMindError =
    | AddressNotFoundError(msg: string)
    | InvalidDatabaseError(msg: string)
    | IoError(msg: string)
    | MapError(msg: string)
    | DecodingError(msg: string)

  /** A parsed IPv4 or IPv6 address. */
  datatype IpAddr = V4(v4: bv32) | V6(v6: bv128)
}
