/** The closed HTTP status vocabulary of `utils/StatusCode.java`. */
module StatusCodes {
  import opened Outcomes

  /** The nine enum constants, in declaration order. */
  datatype StatusCode =
    | OK
    | CREATED
    | NO_CONTENT
    | BAD_REQUEST
    | UNAUTHORIZED
    | FORBIDDEN
    | NOT_FOUND
    | METHOD_NOT_ALLOWED
    | INTERNAL_SERVER_ERROR
  {
    /** The constants documented as successful outcomes. */
    predicate IsSuccess() {
      OK? || CREATED? || NO_CONTENT?
    }

    /** The constants documented as client-side errors. */
    predicate IsClientError() {
      BAD_REQUEST? || UNAUTHORIZED? || FORBIDDEN? || NOT_FOUND? || METHOD_NOT_ALLOWED?
    }

    /** The constants documented as server-side errors. */
    predicate IsServerError() {
      INTERNAL_SERVER_ERROR?
    }
  }

  /** Every constant, in declaration order (`StatusCode.values()`). */
  const AllStatusCodes: seq<StatusCode> :=
    [OK, CREATED, NO_CONTENT, BAD_REQUEST, UNAUTHORIZED, FORBIDDEN, NOT_FOUND,
     METHOD_NOT_ALLOWED, INTERNAL_SERVER_ERROR]

  /** The numeric HTTP status carried by a constant. Each documented class
      of constants lands in its own hundred. */
  function GetCode(s: StatusCode): (code: int)
    ensures s.IsSuccess() <==> 200 <= code <= 299
    ensures s.IsClientError() <==> 400 <= code <= 499
    ensures s.IsServerError() <==> 500 <= code <= 599
  {
    match s
    case OK => 200
    case CREATED => 201
    case NO_CONTENT => 204
    case BAD_REQUEST => 400
    case UNAUTHORIZED => 401
    case FORBIDDEN => 403
    case NOT_FOUND => 404
    case METHOD_NOT_ALLOWED => 405
    case INTERNAL_SERVER_ERROR => 500
  }

  /** The constant carrying a numeric status, if any: the inverse of GetCode. */
  function FromCode(code: int): (r: Option<StatusCode>)
    ensures r.Some? ==> GetCode(r.value) == code
    ensures r.None? ==> forall s: StatusCode :: GetCode(s) != code
  {
    if code == 200 then Some(OK)
    else if code == 201 then Some(CREATED)
    else if code == 204 then Some(NO_CONTENT)
    else if code == 400 then Some(BAD_REQUEST)
    else if code == 401 then Some(UNAUTHORIZED)
    else if code == 403 then Some(FORBIDDEN)
    else if code == 404 then Some(NOT_FOUND)
    else if code == 405 then Some(METHOD_NOT_ALLOWED)
    else if code == 500 then Some(INTERNAL_SERVER_ERROR)
    else None
  }

  /** The enum constant's name, which is how Gson writes it into JSON. */
  function Name(s: StatusCode): string
  {
    match s
    case OK => "OK"
    case CREATED => "CREATED"
    case NO_CONTENT => "NO_CONTENT"
    case BAD_REQUEST => "BAD_REQUEST"
    case UNAUTHORIZED => "UNAUTHORIZED"
    case FORBIDDEN => "FORBIDDEN"
    case NOT_FOUND => "NOT_FOUND"
    case METHOD_NOT_ALLOWED => "METHOD_NOT_ALLOWED"
    case INTERNAL_SERVER_ERROR => "INTERNAL_SERVER_ERROR"
  }

  /** The constant a JSON status name reads back as, if any: None for a
      name that is not one of the nine. */
  function FromName(name: string): (r: Option<StatusCode>)
    ensures r.Some? ==> Name(r.value) == name
  {
    if name == "OK" then Some(OK)
    else if name == "CREATED" then Some(CREATED)
    else if name == "NO_CONTENT" then Some(NO_CONTENT)
    else if name == "BAD_REQUEST" then Some(BAD_REQUEST)
    else if name == "UNAUTHORIZED" then Some(UNAUTHORIZED)
    else if name == "FORBIDDEN" then Some(FORBIDDEN)
    else if name == "NOT_FOUND" then Some(NOT_FOUND)
    else if name == "METHOD_NOT_ALLOWED" then Some(METHOD_NOT_ALLOWED)
    else if name == "INTERNAL_SERVER_ERROR" then Some(INTERNAL_SERVER_ERROR)
    else None
  }

  /** The numeric status determines the constant: GetCode round-trips
      through FromCode, so distinct constants have distinct codes. */
  lemma CodeRoundTrip(s: StatusCode)
    ensures FromCode(GetCode(s)) == Some(s)
  {
  }

  /** GetCode is injective. */
  lemma GetCodeInjective(a: StatusCode, b: StatusCode)
    ensures GetCode(a) == GetCode(b) <==> a == b
  {
    CodeRoundTrip(a);
    CodeRoundTrip(b);
  }

  /** The name round-trips through FromName, so a JSON status name
      identifies its constant. */
  lemma NameRoundTrip(s: StatusCode)
    ensures FromName(Name(s)) == Some(s)
  {
  }

  /** The enum is closed: exactly nine pairwise-distinct constants, every
      value is one of them, and GetCode is defined on each. */
  lemma Closed()
    ensures |AllStatusCodes| == 9
    ensures forall s: StatusCode :: s in AllStatusCodes
    ensures forall i, j :: 0 <= i < j < |AllStatusCodes| ==> AllStatusCodes[i] != AllStatusCodes[j]
    ensures forall i :: 0 <= i < |AllStatusCodes| ==> FromCode(GetCode(AllStatusCodes[i])) == Some(AllStatusCodes[i])
  {
    forall s: StatusCode
      ensures s in AllStatusCodes
    {
      match s
      case OK => assert AllStatusCodes[0] == s;
      case CREATED => assert AllStatusCodes[1] == s;
      case NO_CONTENT => assert AllStatusCodes[2] == s;
      case BAD_REQUEST => assert AllStatusCodes[3] == s;
      case UNAUTHORIZED => assert AllStatusCodes[4] == s;
      case FORBIDDEN => assert AllStatusCodes[5] == s;
      case NOT_FOUND => assert AllStatusCodes[6] == s;
      case METHOD_NOT_ALLOWED => assert AllStatusCodes[7] == s;
      case INTERNAL_SERVER_ERROR => assert AllStatusCodes[8] == s;
    }
  }
}
