# mmdb-grpc: lookup reply assembly and the reload loop, in Dafny

mmdb-grpc serves a MaxMind GeoIP2 City database over gRPC. A `lookup`
request carries an IP address as text and a list of locales. The handler
parses the address and looks it up in the shared database reader. It then
turns the decoded `geoip2::City` record into a `CityReply`, keeping only the
localized names the request asked for. A request with no locales keeps
every name. The server process holds one reader in a shared slot. On a
reload signal it opens the database file again. If the open succeeds, it
swaps the new reader into the slot under the write lock. A failed reload,
or a terminate signal, ends the control loop, and the server shuts down.

The model has these modules:

- `Wrappers` (`wrappers.dfy`): `Option` and `Result`.
- `Geoip2Model`, `Geoip2` (`geoip2.dfy`): the decoded record, the reader's
  five error kinds and IP addresses. Every record field is optional.
- `Proto` (`proto.dfy`): the reply messages. A scalar or sub-message field
  is an `Option`: `None` means its setter was never called. A name map or a
  repeated field has no presence and is empty unless set.
- `Locales` (`locales.dfy`): the `Message_Locale` code table, the set of
  codes a request asks for, and `filter_locales`.
- `Convert` (`convert.dfy`): the `From` conversions from record to reply.
- `Service` (`service.dfy`): `convert_error` and the `lookup` pipeline.
  Address parsing and `Reader::lookup` are function parameters.
- `Server` (`server.dfy`): the reload/terminate loop of `main`. It is a fold
  over a sequence of events. The file open is abstracted as its outcome,
  carried by the reload event. The effects (open, write lock, store,
  unlock, shutdown) are recorded as a trace, so "open before lock" can be
  stated.

A failed reload breaks out of the loop (src/server.rs:81-84) and the
server is then shut down (src/server.rs:94); it does not keep serving.
`Server.Run` and its lemmas state this behaviour. The held reader is never
overwritten by a failed open.

## Model

| member | source | states |
|---|---|---|
| `Locales.ToCode` | src/lib.rs:55-68 | the fixed locale-to-code table; each code it yields is recognised by the inverse table `FromCode` and maps back to the same locale |
| `Locales.FromCodeOnlyTableCodes` | src/lib.rs:55-68 | the inverse table, the partner of `ToCode`, recognises a string only if it is exactly the code of the locale it returns |
| `Locales.CodesAreDistinct` | src/lib.rs:55-68 | two locales share a code only if they are the same locale |
| `Locales.RequestedCodes` | src/lib.rs:39-42 | the filter set holds the code of every requested locale and nothing else; it is empty exactly when the request lists no locale |
| `Locales.FilterLocales` | src/lib.rs:265-274 | an empty filter returns the names map unchanged; a non-empty filter keeps exactly the keys in both the map and the filter; every kept key keeps its value |
| `Locales.FilterLocalesByInsertion` | src/lib.rs:265-274 | one pass over the entries, inserting those the filter admits, produces exactly the filtered map |
| `Locales.DisjointFilterYieldsEmpty` | src/lib.rs:268-272 | requested locales missing from the map are dropped without error; a non-empty filter disjoint from the keys gives the empty map |
| `Locales.FilterIdempotent` | src/lib.rs:265-274 | filtering an already filtered map with the same set changes nothing |
| `Locales.FilterCompose` | src/lib.rs:265-274 | filtering by one set and then a non-empty second set gives the same map in either order |
| `Locales.FilterExample` | src/lib.rs:265-274 | a city named in English and Japanese: filter `{ja}` keeps only the Japanese name, the empty filter keeps both, `{fr}` keeps none |
| `Convert.ReplyNames` | src/lib.rs:128-130 | an absent name map gives an empty reply map; a present one is copied whole under the empty filter, and under a non-empty filter keeps exactly the keys in both the map and the filter, each with its stored value |
| `Convert.CityFrom` | src/lib.rs:120-133 | the city's geoname id is set exactly when present and with the same value; its names are the filtered source names |
| `Convert.ContinentFrom` | src/lib.rs:135-151 | code and geoname id are set exactly when present, with the same values; names are the filtered source names |
| `Convert.CountryFrom` | src/lib.rs:153-172 | geoname id, in-EU flag and ISO code are set exactly when present, with the same values; names are the filtered source names |
| `Convert.RepresentedCountryFrom` | src/lib.rs:203-219 | geoname id and ISO code are set exactly when present, with the same values; names are the filtered source names |
| `Convert.LocationFrom` | src/lib.rs:174-191 | latitude, longitude and time zone pass through when present; the metro code is set exactly when present and keeps its value when widened to 32 bits |
| `Convert.PostalFrom` | src/lib.rs:193-201 | the postal code is set exactly when present, with the same value |
| `Convert.TraitsFrom` | src/lib.rs:242-253 | the anonymous-proxy and satellite-provider flags are set exactly when present, with the same values |
| `Convert.SubdivisionFrom` | src/lib.rs:228-237 | a subdivision keeps exactly its present geoname id and ISO code |
| `Convert.SubdivisionsFrom` | src/lib.rs:224-239 | the converted list has the input's length, and its i-th element holds the i-th input's geoname id and ISO code |
| `Convert.CityReplyFrom` | src/lib.rs:72-118 | each top-level reply field is set exactly when the record holds it, and holds that entity converted under the one shared filter; absent subdivisions give an empty list |
| `Convert.ReplyFieldsMatchRecord` | src/lib.rs:78-114 | the reply has exactly the top-level fields the record holds, so the conversion neither invents nor drops a field |
| `Convert.ConvertThenFilter` | src/lib.rs:76-104 | converting under a locale set equals converting with no filter and then filtering every name map of the reply, so the filter affects names only |
| `Convert.ReplyNamesAreFiltered` | src/lib.rs:76-104 | each of the five reply name maps (city, continent, country, registered and represented country) is the record's optional map under the one shared filter |
| `Convert.ReplyNamesRespectFilter` | src/lib.rs:76-104 | for all five name maps: absent names stay empty; under the empty filter a map is copied whole; under a non-empty filter it keeps exactly the requested codes it has; every kept name is the stored one |
| `Service.ConvertError` | src/lib.rs:255-263 | an address-not-found error becomes `NOT_FOUND` and the four other kinds become `INTERNAL`; the reader's message is kept unchanged |
| `Service.InvalidIpMessage` | src/lib.rs:29-33 | the invalid-argument detail is the fixed prefix, then the offending text verbatim, then a closing quote |
| `Service.Lookup` | src/lib.rs:26-44 | unparsable text fails with `INVALID_ARGUMENT` quoting it, and only then; a reader error fails with its converted status; success happens exactly when parsing and lookup both succeed, and yields the record converted under the requested codes |
| `Service.NoLocalesMeansAllNames` | src/lib.rs:36-43 | a request with no locales gets all five of the record's name maps exactly as stored |
| `Service.RepliedNamesAreRequested` | src/lib.rs:36-43 | when the request lists locales, every name in the reply is under the code of one of them |
| `Server.Step` | src/server.rs:73-91 | a reload whose open succeeds continues holding the new reader; a failed open or a terminate breaks out holding the same reader, recording why |
| `Server.StepActions` | src/server.rs:74-90 | a reload opens the file first; a successful open is followed by the write lock, the store of exactly the opened reader and the unlock; a failed open does nothing more; a terminate performs no effect |
| `Server.Run` | src/server.rs:72-94 | the loop never handles more events than it receives, and handles all of them while it has not exited |
| `Server.RunStopsAtFirstBreak` | src/server.rs:72-92 | the loop handles successful reloads until the first failed reload or terminate, which it records as the exit; the held reader is the one opened by the last successful reload, or the initial one |
| `Server.HeldWasOpened` | src/server.rs:50-79 | after any event sequence the held reader is the initial reader or the reader of a successful open among the events the loop handled |
| `Server.HeldIsLastStored` | src/server.rs:75-79 | the reader the loop holds is the one written by the last store of its effect trace, or the initial reader if it never stored |
| `Server.StoreFollowsOpen` | src/server.rs:75-79 | every store into the shared slot is immediately preceded by the write lock, which is preceded by a successful open of exactly that reader |
| `Server.FailedOpenEndsLoop` | src/server.rs:81-94 | a failed open is followed only by the server shutdown: nothing is locked or stored after it |
| `Server.ShutdownIffExit` | src/server.rs:72-94 | the server is shut down exactly when the loop has ended, and the shutdown is the last effect |
| `Server.FailedReloadKeepsReader` | src/server.rs:75-84 | a failed reload after a serving run ends the loop with the reader held before it |
| `Server.ExitIsFinal` | src/server.rs:83-90 | once the loop has exited, later events are never handled |
| `Server.MainLoop` | src/server.rs:72-94 | the imperative loop with `break` ends in exactly the state, event count, exit and effect trace of the fold |

## Left out

- The MaxMind database format, `Reader::open_readfile` and `Reader::lookup` belong to a foreign library. The open appears only as its outcome in a reload event. The lookup is a function parameter of `Service.Lookup`.
- Parsing an IP address from text belongs to the Rust standard library. It is a function parameter of `Service.Lookup`.
- The spin `RwLock`, the `Arc`, the signal threads and the channels are concurrency plumbing. The loop is a sequential fold over the events in the order `select!` delivers them. The write lock is an effect in the trace.
- gRPC server construction, `UnarySink`, `ctx.spawn` and logging are transport and I/O. The handler's result is the `Result` that would be sent to the sink.
- Latitude and longitude are `f64`. They are kept as opaque 64-bit patterns and only passed through.
- The capacity hints in `filter_locales` and the request locale set have no observable effect.
- Command-line parsing, server start-up and the initial `open_readfile(...).unwrap()` are bootstrap. The initial reader is a parameter of `Server.Run`.
- The periodic reloader in `src/reloader.rs` depends on wall-clock time and a network client.
- `src/lib.rs` implements only the `lookup` RPC, so no other RPC is modelled.
- The example server, whose failed reload panics, is a near-duplicate of the modelled loop. The example client and the protobuf build script are not modelled either.
- Proto3 wire encoding: an unset scalar is `None` here, while a reader of the encoded message sees the type's default value.
