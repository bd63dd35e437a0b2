/** The `lookup` RPC handler: parse the address, look it up in the held
    reader, and convert the record or the error. */
module Service {
  import opened Wrappers
  import G = Geoip2
  import P = Proto
  import opened Locales
  import Convert

  /** The RPC status codes the handler can fail with. */
  datatype StatusCode = InvalidArgument | NotFound | Internal

  /** A failed RPC: a status code and an optional detail message. */
  datatype RpcStatus = RpcStatus(code: StatusCode, details: Option<string>)

  /** A lookup request: the address text and the requested locales. */
  datatype Message = Message(ip: string, locales: seq<Locale>)

  /** A reader error as an RPC status: a missing address is `NotFound`,
      every other kind is `Internal`; the reader's message is kept. */
  function ConvertError(e: G.MaxMindError): (s: RpcStatus)
    ensures s.code == NotFound <==> e.AddressNotFoundError?
    ensures s.code == Internal <==> !e.AddressNotFoundError?
    ensures s.details == Some(e.msg)
  {
    match e
    case AddressNotFoundError(msg) => RpcStatus(NotFound, Some(msg))
    case InvalidDatabaseError(msg) => RpcStatus(Internal, Some(msg))
    case IoError(msg) => RpcStatus(Internal, Some(msg))
    case MapError(msg) => RpcStatus(Internal, Some(msg))
    case DecodingError(msg) => RpcStatus(Internal, Some(msg))
  }

  const InvalidIpPrefix: string := "The request must be IP address but given '"

  /** The detail of the status for an address text that does not parse;
      it quotes the offending text. */
  function InvalidIpMessage(ip: string): (m: string)
    ensures |m| == |InvalidIpPrefix| + |ip| + 1
    ensures m[..|InvalidIpPrefix|] == InvalidIpPrefix
    ensures m[|InvalidIpPrefix|..|InvalidIpPrefix| + |ip|] == ip
    ensures m[|m| - 1] == '\''
  {
    InvalidIpPrefix + ip + "'"
  }

  /** The reply to one lookup request against the held reader.

      Parsing the address text (`parse`) and looking an address up in a
      reader (`lookup`) belong to the standard library and the MaxMind
      reader; they are parameters here. */
  function Lookup<R>(
    reader: R,
    req: Message,
    parse: string -> Option<G.IpAddr>,
    lookup: (R, G.IpAddr) -> Result<G.City, G.MaxMindError>)
    : (r: Result<P.CityReply, RpcStatus>)
    ensures parse(req.ip).None? ==>
      r == Failure(RpcStatus(InvalidArgument, Some(InvalidIpMessage(req.ip))))
    ensures r.Failure? && r.error.code == InvalidArgument <==> parse(req.ip).None?
    ensures parse(req.ip).Some? && lookup(reader, parse(req.ip).value).Failure? ==>
      r == Failure(ConvertError(lookup(reader, parse(req.ip).value).error))
    ensures r.Success? <==> parse(req.ip).Some? && lookup(reader, parse(req.ip).value).Success?
    ensures r.Success? ==>
      r.value == Convert.CityReplyFrom(lookup(reader, parse(req.ip).value).value, RequestedCodes(req.locales))
  {
    match parse(req.ip)
    case None => Failure(RpcStatus(InvalidArgument, Some(InvalidIpMessage(req.ip))))
    case Some(addr) =>
      match lookup(reader, addr)
      case Failure(e) => Failure(ConvertError(e))
      case Success(city) => Success(Convert.CityReplyFrom(city, RequestedCodes(req.locales)))
  }

  /** A request that asks for no locale gets every name the record has,
      exactly as stored, for all five localized entities. */
  lemma NoLocalesMeansAllNames<R>(
    reader: R,
    req: Message,
    parse: string -> Option<G.IpAddr>,
    lookup: (R, G.IpAddr) -> Result<G.City, G.MaxMindError>)
    requires req.locales == []
    requires parse(req.ip).Some? && lookup(reader, parse(req.ip).value).Success?
    ensures var names := Convert.ReplyNameMaps(Lookup(reader, req, parse, lookup).value);
      var stored := Convert.RecordNameMaps(lookup(reader, parse(req.ip).value).value);
      forall i :: 0 <= i < 5 ==> names[i] == if stored[i].Some? then stored[i].value else map[]
  {
    Convert.ReplyNamesRespectFilter(lookup(reader, parse(req.ip).value).value, {});
  }

  /** A reply's names only use codes the request asked for, when it asked
      for any. */
  lemma RepliedNamesAreRequested<R>(
    reader: R,
    req: Message,
    parse: string -> Option<G.IpAddr>,
    lookup: (R, G.IpAddr) -> Result<G.City, G.MaxMindError>)
    requires req.locales != []
    requires Lookup(reader, req, parse, lookup).Success?
    ensures forall i, code :: 0 <= i < 5 && code in Convert.ReplyNameMaps(Lookup(reader, req, parse, lookup).value)[i] ==>
      FromCode(code).Some? && FromCode(code).value in req.locales
  {
    var c := lookup(reader, parse(req.ip).value).value;
    Convert.ReplyNamesRespectFilter(c, RequestedCodes(req.locales));
  }
}
