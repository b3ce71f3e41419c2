/** What a middleware stage sees of a request and what it can do about it. */
module Http {
  import opened Optional

  /** req.body: field name to field value. */
  type Body = map<string, string>

  /** A status code and a `{ message }` JSON body. */
  datatype Response = Response(status: int, message: string)

  /** The three ways a stage ends: it calls next(), it sends a response,
      or (when a promise chain breaks) it does neither. */
  datatype Outcome =
    | Next
    | Respond(status: int, message: string)
    | NoAnswer

  /** The request object the stages share; req.body is rewritten in place
      by the trimming stages. */
  class Request {
    var body: Body

    constructor (body: Body)
      ensures this.body == body
    {
      this.body := body;
    }
  }

  /** req.body[field], undefined when the field is absent. */
  function Field(body: Body, field: string): (v: Option<string>)
    ensures v.Some? <==> field in body
    ensures v.Some? ==> v.value == body[field]
  {
    if field in body then Some(body[field]) else None
  }
}
