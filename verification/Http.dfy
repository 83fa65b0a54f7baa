/** The values that the parser, the connection and the handlers exchange. */
module Http {
  import opened Bytes
  import Ascii

  const MAX_HEAD_BYTES: nat := 16 * 1024
  const MAX_HEADERS: nat := 64
  const MAX_TARGET_BYTES: nat := 8 * 1024
  const MAX_CHUNK_LINE_BYTES: nat := 8 * 1024

  datatype Method = Get | Head | Post | Put | Patch | Delete | Options | Connect | Trace | Query {
    function Token(): bytes {
      match this
      case Get => "GET"
      case Head => "HEAD"
      case Post => "POST"
      case Put => "PUT"
      case Patch => "PATCH"
      case Delete => "DELETE"
      case Options => "OPTIONS"
      case Connect => "CONNECT"
      case Trace => "TRACE"
      case Query => "QUERY"
    }

    static function FromBytes(token: bytes): Option<Method> {
      if token == "GET" then Some(Get)
      else if token == "HEAD" then Some(Head)
      else if token == "POST" then Some(Post)
      else if token == "PUT" then Some(Put)
      else if token == "PATCH" then Some(Patch)
      else if token == "DELETE" then Some(Delete)
      else if token == "OPTIONS" then Some(Options)
      else if token == "CONNECT" then Some(Connect)
      else if token == "TRACE" then Some(Trace)
      else if token == "QUERY" then Some(Query)
      else None
    }
  }

  datatype Version = Http10 | Http11

  datatype Header = Header(name: bytes, value: bytes)

  /** The fields with a name, in order, compared without regard to case. */
  function Named(headers: seq<Header>, name: bytes): seq<Header> {
    if headers == [] then []
    else (if Ascii.EqIgnoreCase(headers[0].name, name) then [headers[0]] else []) + Named(headers[1..], name)
  }

  /** The first field with a name is the one that lookups find. */
  lemma {:induction false} NamedFirst(headers: seq<Header>, name: bytes, k: nat)
    requires k < |headers| && Ascii.EqIgnoreCase(headers[k].name, name)
    requires forall i :: 0 <= i < k ==> !Ascii.EqIgnoreCase(headers[i].name, name)
    ensures Named(headers, name) != [] && Named(headers, name)[0] == headers[k]
    decreases k
  {
    if k > 0 {
      NamedFirst(headers[1..], name, k - 1);
    }
  }

  datatype Request = Request(verb: Method, target: bytes, version: Version, headers: seq<Header>, body: bytes) {
    /** The first value of a field. */
    function Field(name: bytes): Option<bytes> {
      var found := Named(headers, name);
      if found == [] then None else Some(found[0].value)
    }

    predicate KeepAlive() {
      match Field("connection")
      case Some(v) =>
        if Ascii.EqIgnoreCase(v, "close") then false
        else if Ascii.EqIgnoreCase(v, "keep-alive") then true
        else version == Http11
      case None => version == Http11
    }
  }

  datatype ParseError =
    | HeadTooLarge
    | TooManyHeaders
    | MalformedRequestLine
    | UnknownMethod
    | TargetTooLong
    | UnsupportedVersion
    | BareCr
    | BadHost
    | MalformedHeader
    | BadContentLength
    | ConflictingFraming
    | UnsupportedTransferEncoding
    | MalformedChunk
    | BodyTooLarge

  datatype Parsed = Partial | Complete(request: Request, consumed: nat)
}
