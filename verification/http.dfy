/** The HTTP surface the adapter sees, with the transport taken out: a
    request is a value, and whatever the transport does with it is an
    `Outcome` supplied by the caller. */
module Http {
  import opened Text

  datatype Option<T> = None | Some(value: T)

  datatype Method = GET | POST | DELETE

  datatype JsonValue = JsonString(text: Bytes) | JsonNull

  /** A request body: none, raw bytes, or a JSON object whose members are
      listed in the order the source writes them. */
  datatype Body = NoBody | Octets(bytes: Bytes) | Json(members: seq<(Bytes, JsonValue)>)
  {
    /** The value of the JSON member named `key`, if the body has one. */
    function Member(key: Bytes): Option<JsonValue> {
      if Json? then Lookup(members, key) else None
    }
  }

  /** The value of the first member named `key`, if any. */
  function Lookup(members: seq<(Bytes, JsonValue)>, key: Bytes): Option<JsonValue> {
    if |members| == 0 then None
    else if members[0].0 == key then Some(members[0].1)
    else Lookup(members[1..], key)
  }

  /** A request as handed to the transport; `authorization` is the value of
      the `Authorization` header the client attaches to every request. */
  datatype Request = Request(verb: Method, url: Bytes, authorization: Bytes, body: Body)

  datatype Response = Response(status: int, body: Bytes)

  /** What the transport made of a request: a response, or a thrown exception. */
  datatype Outcome = Responded(response: Response) | TransportFailed

  /** The exceptions a PHP caller of the adapter can see. */
  datatype Exception = TransportException | LogicException(message: Bytes)

  /** A PHP call that either returns a value or throws. */
  datatype Attempt<T> = Returned(value: T) | Raised(exception: Exception)

  /** The transport answered `request` with status `code`. */
  predicate RespondedWith(send: Request -> Outcome, request: Request, code: int) {
    send(request).Responded? && send(request).response.status == code
  }
}
