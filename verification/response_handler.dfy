/** The response envelope of `utils/ResponseHandler.java` and the error body
    of `utils/ErrorDTO.java`. A servlet response is reduced to the status it
    is given and the object that is serialised as its body. */
module ResponseHandler {
  import opened Outcomes
  import opened StatusCodes
  import opened Entities

  /** The error body: a message and the symbolic status (Gson writes the
      fields as `message` and `status`). */
  datatype ErrorDTO = ErrorDTO(message: string, status: StatusCode)

  /** The objects the core hands to Gson: one entity (null when the lookup
      after saving found nothing), the list of all entities, or an error. */
  datatype Payload =
    | EntityPayload(entity: Option<IdValueTable>)
    | ListPayload(entities: seq<IdValueTable>)
    | ErrorPayload(error: ErrorDTO)

  /** What a handler leaves in the servlet response. */
  datatype Response = Response(status: int, body: Payload)

  /** The envelope invariant: an error body names, as its status, the
      constant whose code is the response's status. */
  predicate EnvelopeConsistent(r: Response)
  {
    r.body.ErrorPayload? ==> r.status == GetCode(r.body.error.status)
  }

  /** `send(dto, statusCode)`: the status set is the constant's code, which
      identifies the constant again, and the body is `dto` untouched. */
  function Send(dto: Payload, statusCode: StatusCode): (r: Response)
    ensures FromCode(r.status) == Some(statusCode)
    ensures r.body == dto
  {
    CodeRoundTrip(statusCode);
    Response(GetCode(statusCode), dto)
  }

  /** `sendOk(dto)`: status 200 and body `dto`, the same as `send(dto, OK)`. */
  function SendOk(dto: Payload): (r: Response)
    ensures r.status == 200 && r.body == dto
    ensures r == Send(dto, OK)
  {
    Response(GetCode(OK), dto)
  }

  /** `sendBadRequest(msg)`: status 400 and an error body carrying `msg`
      unchanged and BAD_REQUEST. */
  function SendBadRequest(msg: string): (r: Response)
    ensures r.status == 400
    ensures r.body == ErrorPayload(ErrorDTO(msg, BAD_REQUEST))
    ensures EnvelopeConsistent(r)
  {
    Send(ErrorPayload(ErrorDTO(msg, BAD_REQUEST)), BAD_REQUEST)
  }

  /** `sendInternalServerError(msg)`: status 500 and an error body carrying
      `msg` unchanged and INTERNAL_SERVER_ERROR. */
  function SendInternalServerError(msg: string): (r: Response)
    ensures r.status == 500
    ensures r.body == ErrorPayload(ErrorDTO(msg, INTERNAL_SERVER_ERROR))
    ensures EnvelopeConsistent(r)
  {
    Send(ErrorPayload(ErrorDTO(msg, INTERNAL_SERVER_ERROR)), INTERNAL_SERVER_ERROR)
  }

  /** A client reading only the body of a consistent error response recovers
      the transport status, and the status name written in the body is the
      name of the constant the transport status belongs to. */
  lemma ErrorBodyDeterminesStatus(r: Response)
    requires EnvelopeConsistent(r) && r.body.ErrorPayload?
    ensures FromCode(r.status) == Some(r.body.error.status)
    ensures FromName(Name(r.body.error.status)) == FromCode(r.status)
  {
    CodeRoundTrip(r.body.error.status);
    NameRoundTrip(r.body.error.status);
  }
}
