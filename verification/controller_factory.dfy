/** The request adapter of `ControllerFactory.java`: `doPost` and `doGet`
    as pure functions from a parsed request and the table to the response
    and the table afterwards.

    Gson's parse of the request body is given as a `RequestBody`; a member
    that `getAsString` refuses carries the message of the exception it
    throws. Port faults are parameters, as in the service. */
module ControllerFactory {
  import opened Outcomes
  import opened Entities
  import opened StatusCodes
  import opened ResponseHandler
  import opened ServiceFactory
  import opened JavaStrings

  /** One member of the request object as `getAsString` sees it: a string,
      or something whose conversion throws with the given message. */
  datatype JsonValue = JsonString(text: string) | NotAString(message: string)

  /** The result of `gson.fromJson(reader, JsonObject.class)`: null for an
      empty body, an object, or the message of the parse exception. */
  datatype RequestBody =
    | NoBody
    | JsonObject(members: map<string, JsonValue>)
    | Unparseable(message: string)

  /** One concrete controller: `getRequestValueKey()` and the kind served by
      `getService()`. */
  datatype Controller = Controller(requestValueKey: string, kind: EntityKind)

  /** The response a handler sends and the table it leaves. */
  datatype Outcome = Outcome(response: Response, store: Store)

  function MissingFieldMessage(key: string): string
  {
    "Missing required field: " + key
  }

  function EmptyFieldMessage(key: string): string
  {
    key + " cannot be empty."
  }

  /** The body names the key with a JSON string. */
  predicate HasStringMember(body: RequestBody, key: string)
  {
    body.JsonObject? && key in body.members && body.members[key].JsonString?
  }

  /** The validation part of `doPost`: the trimmed value handed to the
      service, or the exception thrown before the service is called. */
  function RequestValue(key: string, body: RequestBody): (r: Result<string, Exception>)
    // Only a non-blank JSON string gets through, trimmed.
    ensures r.Success? <==> HasStringMember(body, key) && !AllTrimmable(body.members[key].text)
    ensures r.Success? ==> r.value == Trim(body.members[key].text) && r.value != [] && IsTrimmed(r.value)
    // No body, or no such key: a FactoryException naming the key.
    ensures body.NoBody? || (body.JsonObject? && key !in body.members) ==>
              r == Failure(FactoryException(MissingFieldMessage(key)))
    // A blank string: a FactoryException saying the key cannot be empty.
    ensures HasStringMember(body, key) && AllTrimmable(body.members[key].text) ==>
              r == Failure(FactoryException(EmptyFieldMessage(key)))
    // A body Gson cannot parse, or a member it cannot read as a string,
    // throws something other than a FactoryException.
    ensures body.Unparseable? ==> r == Failure(OtherException(body.message))
    ensures body.JsonObject? && key in body.members && body.members[key].NotAString? ==>
              r == Failure(OtherException(body.members[key].message))
  {
    match body
    case NoBody => Failure(FactoryException(MissingFieldMessage(key)))
    case Unparseable(msg) => Failure(OtherException(msg))
    case JsonObject(members) =>
      if key !in members then Failure(FactoryException(MissingFieldMessage(key)))
      else
        match members[key]
        case NotAString(msg) => Failure(OtherException(msg))
        case JsonString(text) =>
          var value := Trim(text);
          TrimEmptyIffBlank(text);
          if value == [] then Failure(FactoryException(EmptyFieldMessage(key)))
          else Success(value)
  }

  /** The two `catch` blocks of `doPost`: a FactoryException is a bad request,
      anything else an internal error, and the message is sent unchanged. */
  function SendException(e: Exception): (r: Response)
    ensures r.status == 400 <==> e.FactoryException?
    ensures r.status == 500 <==> e.OtherException?
    ensures r.body.ErrorPayload? && r.body.error.message == e.message
    ensures EnvelopeConsistent(r)
  {
    match e
    case FactoryException(msg) => SendBadRequest(msg)
    case OtherException(msg) => SendInternalServerError(msg)
  }

  /** A response as the core emits it: one of the four statuses in use, an
      error body exactly on the error statuses, and a consistent envelope. */
  predicate WellFormed(r: Response)
  {
    && r.status in {200, 201, 400, 500}
    && (r.body.ErrorPayload? <==> r.status >= 400)
    && EnvelopeConsistent(r)
  }

  /** `doPost`: validate, create, and answer 201 with the created entity, or
      translate the exception thrown on the way. */
  function DoPost(c: Controller, body: RequestBody, s: Store, fault: Option<string>): (o: Outcome)
    ensures WellFormed(o.response)
    // Nothing is written unless validation passed; then the table is what
    // the service left, given the trimmed non-blank value.
    ensures var v := RequestValue(c.requestValueKey, body);
            && (v.Failure? ==> o == Outcome(SendException(v.error), s))
            && (v.Success? ==> o.store == Create(c.kind, s, v.value, fault).store)
    // 201 exactly when the service returned, with what it returned.
    ensures o.response.status == 201 <==>
              var v := RequestValue(c.requestValueKey, body);
              v.Success? && Create(c.kind, s, v.value, fault).result.Success?
    ensures o.response.status == 201 ==>
              var v := RequestValue(c.requestValueKey, body);
              o.response.body == EntityPayload(Create(c.kind, s, v.value, fault).result.value)
    // A service exception is translated by its class, message unchanged.
    ensures var v := RequestValue(c.requestValueKey, body);
            v.Success? && Create(c.kind, s, v.value, fault).result.Failure? ==>
              o.response == SendException(Create(c.kind, s, v.value, fault).result.error)
  {
    match RequestValue(c.requestValueKey, body)
    case Failure(e) => Outcome(SendException(e), s)
    case Success(value) =>
      var st := Create(c.kind, s, value, fault);
      match st.result
      case Success(created) => Outcome(Send(EntityPayload(created), CREATED), st.store)
      case Failure(e) => Outcome(SendException(e), st.store)
  }

  /** `doGet`: 200 with every stored entity, or 500 with the port's message;
      the table is only read. */
  function DoGet(c: Controller, s: Store, fault: Option<string>): (o: Outcome)
    ensures WellFormed(o.response)
    ensures o.store == s
    ensures o.response.status == 200 <==> fault.None?
    ensures fault.None? ==> o.response.body == ListPayload(s.rows)
    ensures fault.Some? ==> o.response == SendInternalServerError(fault.value)
  {
    match GetAll(s, fault)
    case Success(all) => Outcome(Send(ListPayload(all), OK), s)
    case Failure(e) => Outcome(SendInternalServerError(e.message), s)
  }

  /** A POST without a body, or without the configured key, is a 400 naming
      the key, and the table is unchanged. */
  lemma PostMissingField(c: Controller, body: RequestBody, s: Store, fault: Option<string>)
    requires body.NoBody? || (body.JsonObject? && c.requestValueKey !in body.members)
    ensures DoPost(c, body, s, fault) ==
              Outcome(Response(400, ErrorPayload(ErrorDTO("Missing required field: " + c.requestValueKey, BAD_REQUEST))), s)
  {
  }

  /** A POST whose value is blank after trimming is a 400 saying the key
      cannot be empty, and the service is not reached. */
  lemma PostBlankValue(c: Controller, body: RequestBody, s: Store, fault: Option<string>)
    requires HasStringMember(body, c.requestValueKey)
    requires Trim(body.members[c.requestValueKey].text) == []
    ensures DoPost(c, body, s, fault) ==
              Outcome(Response(400, ErrorPayload(ErrorDTO(c.requestValueKey + " cannot be empty.", BAD_REQUEST))), s)
  {
    TrimEmptyIffBlank(body.members[c.requestValueKey].text);
  }

  /** The body holds, under `key`, the non-blank trimmed string `v` padded
      on either side with trimmable characters. Every string member that
      passes validation has this shape (see `CarriesExactlyValidated`). */
  predicate CarriesPadded(body: RequestBody, key: string, w1: string, v: string, w2: string)
  {
    && body.JsonObject? && key in body.members && body.members[key] == JsonString(w1 + v + w2)
    && AllTrimmable(w1) && AllTrimmable(w2) && IsTrimmed(v) && v != []
  }

  /** Validation passes with `v` exactly when the member is `v` padded with
      trimmable characters. */
  lemma CarriesExactlyValidated(key: string, body: RequestBody, v: string)
    ensures RequestValue(key, body) == Success(v) <==>
              exists w1, w2 :: CarriesPadded(body, key, w1, v, w2)
  {
    if RequestValue(key, body) == Success(v) {
      var w1, w2 := TrimSplits(body.members[key].text);
      assert CarriesPadded(body, key, w1, v, w2);
    }
    if exists w1, w2 :: CarriesPadded(body, key, w1, v, w2) {
      var w1, w2 :| CarriesPadded(body, key, w1, v, w2);
      PaddedTrim(w1, v, w2);
      TrimEmptyIffBlank(w1 + v + w2);
    }
  }

  /** A POST of a fresh value to a by-convention kind, with no port fault,
      answers 201 with the new row: the trimmed value under the next id. */
  lemma PostCreates(c: Controller, body: RequestBody, s: Store, w1: string, v: string, w2: string)
    requires CarriesPadded(body, c.requestValueKey, w1, v, w2)
    requires !HasValue(s.rows, v) && c.kind.construct(v) == Some(WithValue(v))
    ensures var e := IdValueTable(s.nextId, Some(v));
            DoPost(c, body, s, None) == Outcome(Response(201, EntityPayload(Some(e))), Store(s.rows + [e], s.nextId + 1))
  {
    CarriesExactlyValidated(c.requestValueKey, body, v);
    CreateFresh(c.kind, s, v);
  }

  /** A POST of a fresh value whose kind has no usable single-string
      constructor is a 500 naming the class, and nothing is saved. */
  lemma PostConstructionFailure(c: Controller, body: RequestBody, s: Store, fault: Option<string>,
                                w1: string, v: string, w2: string)
    requires CarriesPadded(body, c.requestValueKey, w1, v, w2)
    requires !HasValue(s.rows, v) && c.kind.construct(v).None?
    ensures DoPost(c, body, s, fault) ==
              Outcome(Response(500, ErrorPayload(ErrorDTO("Could not instantiate class: " + c.kind.simpleName, INTERNAL_SERVER_ERROR))), s)
  {
    CarriesExactlyValidated(c.requestValueKey, body, v);
  }

  /** A POST of a fresh value whose save fails is a 500 carrying the port's
      message, and the table is unchanged. */
  lemma PostSaveFault(c: Controller, body: RequestBody, s: Store, m: string,
                      w1: string, v: string, w2: string)
    requires CarriesPadded(body, c.requestValueKey, w1, v, w2)
    requires !HasValue(s.rows, v) && c.kind.construct(v).Some?
    ensures DoPost(c, body, s, Some(m)) ==
              Outcome(Response(500, ErrorPayload(ErrorDTO(m, INTERNAL_SERVER_ERROR))), s)
  {
    CarriesExactlyValidated(c.requestValueKey, body, v);
  }

  /** A POST of a value that two rows already hold is a 500 carrying the
      non-unique lookup's message, not a duplicate 400, and nothing is
      written. */
  lemma PostAmbiguous(c: Controller, body: RequestBody, s: Store, fault: Option<string>,
                      w1: string, v: string, w2: string)
    requires CarriesPadded(body, c.requestValueKey, w1, v, w2)
    requires Ambiguous(s.rows, v)
    ensures DoPost(c, body, s, fault) ==
              Outcome(Response(500, ErrorPayload(ErrorDTO(NonUniqueMessage(|Matching(s.rows, v)|), INTERNAL_SERVER_ERROR))), s)
  {
    CarriesExactlyValidated(c.requestValueKey, body, v);
  }

  /** After a POST has answered 201 with an entity, any POST whose value
      trims to the same string (the same body, or one padded differently)
      is a 400 duplicate and adds no row. */
  lemma RepeatedPostIsDuplicate(c: Controller, first: RequestBody, again: RequestBody, s: Store,
                                fault: Option<string>, fault': Option<string>,
                                w1: string, v: string, w2: string, u1: string, u2: string)
    requires CarriesPadded(first, c.requestValueKey, w1, v, w2)
    requires CarriesPadded(again, c.requestValueKey, u1, v, u2)
    requires Create(c.kind, s, v, fault).result.Success?
    requires Create(c.kind, s, v, fault).result.value.Some?
    ensures DoPost(c, first, s, fault).response.status == 201
    ensures var s' := DoPost(c, first, s, fault).store;
            DoPost(c, again, s', fault') ==
              Outcome(Response(400, ErrorPayload(ErrorDTO(c.kind.simpleName + " already exists!", BAD_REQUEST))), s')
  {
    CarriesExactlyValidated(c.requestValueKey, first, v);
    CarriesExactlyValidated(c.requestValueKey, again, v);
    CreateTwiceIsDuplicate(c.kind, s, v, fault, fault');
  }

  /** A whitespace-padded copy of a request value reaches the service as the
      same value. */
  lemma PaddedRequestValue(key: string, text: string, w1: string, w2: string)
    requires AllTrimmable(w1) && AllTrimmable(w2)
    ensures RequestValue(key, JsonObject(map[key := JsonString(w1 + text + w2)])) ==
            RequestValue(key, JsonObject(map[key := JsonString(text)]))
  {
    TrimIgnoresPadding(w1, text, w2);
    TrimEmptyIffBlank(text);
    TrimEmptyIffBlank(w1 + text + w2);
  }

  /** POST keeps the values in the table pairwise distinct, whatever it
      answers, for a kind whose constructor keeps the value it is given. */
  lemma PostPreservesUniqueness(c: Controller, body: RequestBody, s: Store, fault: Option<string>)
    requires ValuesDistinct(s.rows)
    requires forall v :: ConformsAt(c.kind, v)
    ensures ValuesDistinct(DoPost(c, body, s, fault).store.rows)
  {
    var r := RequestValue(c.requestValueKey, body);
    if r.Success? {
      CreatePreservesUniqueness(c.kind, s, r.value, fault);
    }
  }

  /** A GET on a fresh table answers 200 with an empty list. */
  lemma GetEmptyTable(c: Controller)
    ensures Valid(EmptyStore)
    ensures DoGet(c, EmptyStore, None) == Outcome(Response(200, ListPayload([])), EmptyStore)
  {
  }
}
