# hibernate-factory: a Dafny model of the generic lookup-table core

The library gives every "lookup table" entity kind (Category, Role, Tag, ...)
the same REST surface. An entity is an `{id, value}` record whose value is
meant to be unique. The core has three parts:

- **`ServiceFactory`**: `create(value)` rejects a value that is already
  stored. Otherwise it builds the entity through the kind's
  single-`String` constructor, saves it, and returns what a fresh lookup by
  the same value finds. `getByValue` is an exact-match lookup and `getAll`
  lists the table.
- **`ControllerFactory`**: `doPost` reads the configured key from the JSON
  body, trims it and rejects a missing or blank value. It then calls
  `create` and maps the outcome to a status. A `FactoryException` becomes
  400 and any other exception 500. `doGet` lists the table with 200, or
  answers 500.
- **`ResponseHandler` / `StatusCode` / `ErrorDTO` / `IdValueTable`**: the
  response envelope, the nine-constant status vocabulary, the error body and
  the record shape.

Everything is modelled as pure functions over immutable values:

| file | module | models |
|---|---|---|
| `outcomes.dfy` | `Outcomes` | null references (`Option`), value-or-exception (`Result`), and `FactoryException` versus any other exception |
| `status_code.dfy` | `StatusCodes` | `StatusCode.java` |
| `id_value_table.dfy` | `Entities` | `IdValueTable.java` |
| `java_strings.dfy` | `JavaStrings` | `String.trim` and decimal rendering of a count |
| `service_factory.dfy` | `ServiceFactory` | `ServiceFactory.java` over an abstract table |
| `response_handler.dfy` | `ResponseHandler` | `ResponseHandler.java` and `ErrorDTO.java` |
| `controller_factory.dfy` | `ControllerFactory` | `ControllerFactory.java` |

Modelling choices:

- The Hibernate session becomes a `Store`: the kind's rows in insertion
  order plus the next IDENTITY value, which starts at 1. One
  `beginTransaction; save; commit` is one atomic append.
- A database failure cannot be computed, so the save inside `create` and
  the listing of `getAll` take a `fault: Option<string>` argument. `None`
  means the call goes through. `Some(m)` means it throws with message `m`.
  The two lookups inside `create` take no fault.
- Reflection becomes the kind's `construct: string -> Option<IdValueTable>`.
  `None` stands for a missing constructor or a constructor that threw.
  `ByConvention(name)` is the kind whose constructor is
  `Kind(String v) { super(v); }`.
- Gson's parse becomes a `RequestBody`: no body (`fromJson` returned null),
  an object whose members are strings or values that `getAsString` refuses,
  or a parse exception.
- A response becomes `(status, body)`. The body is the object handed to Gson:
  an entity (possibly null), the list of entities, or an `ErrorDTO`.

Points worth noting about the code:

- `create` neither trims nor rejects an empty value. Only the controller
  trims, and only the controller rejects a blank value. A value reaches
  `create` exactly as the controller passes it.
- The error body's status field is named `status`, because that is the
  `ErrorDTO` field Gson serialises. It is not named `statusCode`.
- Uniqueness of values is not an unconditional invariant. It holds when the
  kind's constructor keeps the value it is given (`ConformsAt`). The
  by-convention constructor always does.
  `NonConformingConstructorBreaksUniqueness` shows a constructor that
  ignores its argument: `create` then saves a second copy of a stored value,
  and the lookup afterwards finds nothing.
- The lookup after saving can find nothing. When it does, `create` returns
  null and the controller answers 201 with a null body. The model keeps this
  as `EntityPayload(None)`.
- `getByValue` with two or more matches throws Hibernate's
  `NonUniqueResultException`. That is a non-`FactoryException`, so the
  controller answers 500. While values are distinct this cannot happen.

## Model

| member | source | states |
|---|---|---|
| StatusCodes.GetCode | src/main/java/io/github/vishva_kalhara/hibernate_factory/utils/StatusCode.java:24-92 | every constant has a code; the success constants land in 200..299, the client-error constants in 400..499 and INTERNAL_SERVER_ERROR in 500..599, each in both directions |
| StatusCodes.FromCode | src/main/java/io/github/vishva_kalhara/hibernate_factory/utils/StatusCode.java:29-69 | the inverse of `getCode`: the constant it returns carries the given code, and when it returns none, no constant carries that code |
| StatusCodes.CodeRoundTrip | src/main/java/io/github/vishva_kalhara/hibernate_factory/utils/StatusCode.java:29-69 | `FromCode(GetCode(s)) == Some(s)` for every constant |
| StatusCodes.GetCodeInjective | src/main/java/io/github/vishva_kalhara/hibernate_factory/utils/StatusCode.java:29-69 | distinct constants have distinct codes, and equal codes mean the same constant |
| StatusCodes.FromName | src/main/java/io/github/vishva_kalhara/hibernate_factory/utils/StatusCode.java:24-69 | reads back the enum name (`Name`, what Gson writes into the error body): the constant it returns for a name has that name |
| StatusCodes.NameRoundTrip | src/main/java/io/github/vishva_kalhara/hibernate_factory/utils/StatusCode.java:24-69 | a constant's name, as written into a JSON body, identifies the constant |
| StatusCodes.Closed | src/main/java/io/github/vishva_kalhara/hibernate_factory/utils/StatusCode.java:24-69 | the enum has exactly nine pairwise-distinct constants, every value is one of them, and `getCode` is defined on each |
| Entities.Empty | src/main/java/io/github/vishva_kalhara/hibernate_factory/IdValueTable.java:39-40 | the no-argument constructor leaves id 0 and value null |
| Entities.WithValue | src/main/java/io/github/vishva_kalhara/hibernate_factory/IdValueTable.java:47-49 | `IdValueTable(v)` has `getValue() == v` and keeps id 0 until the store assigns one |
| Entities.WithId | src/main/java/io/github/vishva_kalhara/hibernate_factory/IdValueTable.java:57-59 | `IdValueTable(i)` has `getId() == i` and a null value |
| Entities.SetId | src/main/java/io/github/vishva_kalhara/hibernate_factory/IdValueTable.java:66-77 | after `setId(i)`, `getId()` (modelled by `GetId`) is `i` and `getValue()` is unchanged |
| Entities.SetValue | src/main/java/io/github/vishva_kalhara/hibernate_factory/IdValueTable.java:84-95 | after `setValue(v)`, `getValue()` (modelled by `GetValue`) is `v` and `getId()` is unchanged |
| Entities.SettersDetermineEntity | src/main/java/io/github/vishva_kalhara/hibernate_factory/IdValueTable.java:66-95 | the two setters commute, together reach any `{id, value}` state, and setting a field to its current value changes nothing |
| Entities.ConstructorsAgree | src/main/java/io/github/vishva_kalhara/hibernate_factory/IdValueTable.java:47-59 | building by value and then setting the id gives the same record as building by id and then setting the value |
| JavaStrings.Trim | src/main/java/io/github/vishva_kalhara/hibernate_factory/ControllerFactory.java:71 | the trimmed value starts and ends with a character above U+0020, or is empty |
| JavaStrings.TrimEmptyIffBlank | src/main/java/io/github/vishva_kalhara/hibernate_factory/ControllerFactory.java:71-72 | the trimmed value is empty exactly when every character is at most U+0020 |
| JavaStrings.PaddedTrim | src/main/java/io/github/vishva_kalhara/hibernate_factory/ControllerFactory.java:71 | padding an already-trimmed string with characters at most U+0020 on either side and trimming gives the string back |
| JavaStrings.TrimIgnoresPadding | src/main/java/io/github/vishva_kalhara/hibernate_factory/ControllerFactory.java:71 | padding any string with whitespace does not change its trimmed value |
| JavaStrings.TrimIdempotent | src/main/java/io/github/vishva_kalhara/hibernate_factory/ControllerFactory.java:71 | trimming twice is trimming once |
| ServiceFactory.ByConvention | src/main/java/io/github/vishva_kalhara/hibernate_factory/ServiceFactory.java:23-26 | the by-convention kind keeps its simple name and constructs, for every value, the record holding that value |
| ServiceFactory.Matching | src/main/java/io/github/vishva_kalhara/hibernate_factory/ServiceFactory.java:89-90 | the criteria query returns only stored rows whose value is exactly `v`; it is empty exactly when no row holds `v`, and has at most one row while values are distinct (that it drops no row is `MatchingComplete`) |
| ServiceFactory.MatchingComplete | src/main/java/io/github/vishva_kalhara/hibernate_factory/ServiceFactory.java:89-90 | the criteria query drops no row: every stored row whose value is exactly `v` is selected |
| ServiceFactory.MatchingAmbiguous | src/main/java/io/github/vishva_kalhara/hibernate_factory/ServiceFactory.java:89-91 | the query selects two or more rows exactly when two different rows hold `v` |
| ServiceFactory.GetByValue | src/main/java/io/github/vishva_kalhara/hibernate_factory/ServiceFactory.java:88-92 | null exactly when no row holds `v`; otherwise a stored row whose value is exactly `v`; it throws (a non-Factory exception) exactly when two different rows hold `v`, which distinct values rule out |
| ServiceFactory.Save | src/main/java/io/github/vishva_kalhara/hibernate_factory/ServiceFactory.java:75-77 | the commit succeeds exactly when the port does not fail and the value is not null; a port failure is reported with the port's message; a success appends the entity under the next id and keeps the table invariant (ids positive, increasing, never reused) |
| ServiceFactory.Create | src/main/java/io/github/vishva_kalhara/hibernate_factory/ServiceFactory.java:55-80 | a FactoryException means a duplicate with message `<Kind> already exists!` and an unchanged table, and exactly one stored row holding `v` always gives it, whatever the other rows hold; a constructor failure gives `Could not instantiate class: <Kind>`, not a FactoryException, and nothing is saved; the table either stays the same or gains exactly the constructed entity under the next id, and success always gains it; every failure leaves the table unchanged; two rows already holding `v` give the non-unique lookup exception, not a FactoryException, before anything is constructed; a constructor that builds some other non-null value has its entity saved and `create` returns null; a failing save of a fresh value gives a non-Factory exception with the port's message, and a constructed entity without a value gives the not-null violation; a returned entity is a stored row with exactly `v`; with a conforming constructor it is the new row `{nextId, v}`; the table invariant is kept |
| ServiceFactory.CreatePreservesUniqueness | src/main/java/io/github/vishva_kalhara/hibernate_factory/ServiceFactory.java:64-79 | values that are pairwise distinct before `create` stay so afterwards, whether it succeeds or fails, for a constructor that keeps its value |
| ServiceFactory.NonConformingConstructorBreaksUniqueness | src/main/java/io/github/vishva_kalhara/hibernate_factory/ServiceFactory.java:64-79 | a constructor that ignores its argument makes `create` save a duplicate value and return null |
| ServiceFactory.CreateThenGetByValue | src/main/java/io/github/vishva_kalhara/hibernate_factory/ServiceFactory.java:79 | after a successful `create(v)`, `getByValue(v)` returns exactly what `create` returned |
| ServiceFactory.CreateTwiceIsDuplicate | src/main/java/io/github/vishva_kalhara/hibernate_factory/ServiceFactory.java:64-66 | once `create(v)` has returned an entity, a second `create(v)` is the duplicate FactoryException and writes nothing, whatever the port would do |
| ServiceFactory.CreateFresh | src/main/java/io/github/vishva_kalhara/hibernate_factory/ServiceFactory.java:68-79 | a fresh value with a by-convention constructor and no fault is appended as `{nextId, v}` and that record is returned |
| ServiceFactory.GetAll | src/main/java/io/github/vishva_kalhara/hibernate_factory/ServiceFactory.java:99-101 | succeeds exactly when the port does not fail, and then returns the stored records, all of them, in table order; a failure carries the port's message |
| ServiceFactory.ListingAfterCreate | src/main/java/io/github/vishva_kalhara/hibernate_factory/ServiceFactory.java:75-101 | after a successful `create(v)` with a conforming constructor, `getAll` lists one more record and its values are the old values plus `v` |
| ServiceFactory.ListingCompleteness | src/main/java/io/github/vishva_kalhara/hibernate_factory/ServiceFactory.java:63-101 | creating pairwise-distinct values that are not yet stored, one after another, with a by-convention kind adds one row per value; `getAll` then lists them all, and the listed values are exactly the old values plus the new ones |
| ResponseHandler.Send | src/main/java/io/github/vishva_kalhara/hibernate_factory/utils/ResponseHandler.java:32-35 | the status set identifies the given constant, and the body is the dto unchanged |
| ResponseHandler.SendOk | src/main/java/io/github/vishva_kalhara/hibernate_factory/utils/ResponseHandler.java:44-47 | status 200 and body `dto`, the same response as `send(dto, OK)` |
| ResponseHandler.SendBadRequest | src/main/java/io/github/vishva_kalhara/hibernate_factory/utils/ResponseHandler.java:56-58 | status 400 and body `{message = msg, status = BAD_REQUEST}`, with a consistent envelope |
| ResponseHandler.SendInternalServerError | src/main/java/io/github/vishva_kalhara/hibernate_factory/utils/ResponseHandler.java:67-69 | status 500 and body `{message = msg, status = INTERNAL_SERVER_ERROR}`, with a consistent envelope |
| ResponseHandler.ErrorBodyDeterminesStatus | src/main/java/io/github/vishva_kalhara/hibernate_factory/utils/ResponseHandler.java:57-68 | in a consistent error response, the body's status constant and its serialised name both identify the transport status |
| ControllerFactory.RequestValue | src/main/java/io/github/vishva_kalhara/hibernate_factory/ControllerFactory.java:66-74 | validation passes exactly for a non-blank JSON string under the key, and then yields its trimmed, non-empty value; no body or no key gives the `Missing required field: <key>` FactoryException; a blank value gives `<key> cannot be empty.`; a parse or conversion failure gives a non-Factory exception carrying its message |
| ControllerFactory.SendException | src/main/java/io/github/vishva_kalhara/hibernate_factory/ControllerFactory.java:79-83 | status 400 exactly for a FactoryException and 500 exactly for any other exception, with the message unchanged and a consistent envelope |
| ControllerFactory.DoPost | src/main/java/io/github/vishva_kalhara/hibernate_factory/ControllerFactory.java:64-84 | every response is 201, 400 or 500, with an error body exactly on 400 and 500 and a consistent envelope; a validation failure leaves the table unchanged; otherwise the table is what `create` left, given the trimmed non-blank value; 201 exactly when `create` returned, with the entity it returned; a service exception is translated by its class |
| ControllerFactory.DoGet | src/main/java/io/github/vishva_kalhara/hibernate_factory/ControllerFactory.java:98-104 | the table is never changed; 200 exactly when the port does not fail, with the full record list; otherwise 500 with the port's message |
| ControllerFactory.PostMissingField | src/main/java/io/github/vishva_kalhara/hibernate_factory/ControllerFactory.java:66-80 | no body, or no configured key, gives 400 with `Missing required field: <key>`, and the table is unchanged |
| ControllerFactory.PostBlankValue | src/main/java/io/github/vishva_kalhara/hibernate_factory/ControllerFactory.java:71-80 | a value that is empty after trimming gives 400 with `<key> cannot be empty.`, and the service is not reached |
| ControllerFactory.PostCreates | src/main/java/io/github/vishva_kalhara/hibernate_factory/ControllerFactory.java:71-77 | a body member that is a fresh non-blank value `v`, padded with trimmable characters, for a by-convention kind gives 201 with the new record: the trimmed value under the next id |
| ControllerFactory.PostConstructionFailure | src/main/java/io/github/vishva_kalhara/hibernate_factory/ControllerFactory.java:76-82 | a fresh value whose kind cannot be constructed gives 500 with `Could not instantiate class: <Kind>`, and nothing is saved |
| ControllerFactory.PostAmbiguous | src/main/java/io/github/vishva_kalhara/hibernate_factory/ControllerFactory.java:76-83 | a value that two rows already hold gives 500 with the non-unique lookup's message, not the duplicate 400, and nothing is written |
| ControllerFactory.PostSaveFault | src/main/java/io/github/vishva_kalhara/hibernate_factory/ControllerFactory.java:76-83 | a fresh value whose save fails gives 500 with the port's message, and the table is unchanged |
| ControllerFactory.RepeatedPostIsDuplicate | src/main/java/io/github/vishva_kalhara/hibernate_factory/ControllerFactory.java:71-80 | after a 201 that carried an entity, any POST whose member is the same value with any padding gives 400 with `<Kind> already exists!` and adds no row |
| ControllerFactory.CarriesExactlyValidated | src/main/java/io/github/vishva_kalhara/hibernate_factory/ControllerFactory.java:67-74 | validation hands the service `v` exactly when the body holds, under the key, the non-blank trimmed `v` padded with characters `trim` removes (both directions) |
| ControllerFactory.PaddedRequestValue | src/main/java/io/github/vishva_kalhara/hibernate_factory/ControllerFactory.java:71 | a whitespace-padded copy of a request value reaches the service as the same value, or fails validation the same way |
| ControllerFactory.GetEmptyTable | src/main/java/io/github/vishva_kalhara/hibernate_factory/ControllerFactory.java:98-100 | a GET on a fresh table (no rows, IDENTITY at 1) answers 200 with an empty list |
| ControllerFactory.PostPreservesUniqueness | src/main/java/io/github/vishva_kalhara/hibernate_factory/ControllerFactory.java:64-84 | whatever a POST answers, pairwise-distinct values stay pairwise distinct for a kind whose constructor keeps its value |

## Left out

- Servlet I/O is not modelled: readers, writers, `IOException`, and the JSON text Gson writes. A response is its status and the object handed to Gson.
- Gson's coercion of non-string JSON values (numbers, booleans, one-element arrays) by `getAsString` is not modelled. A coerced member is given as the `JsonString` it becomes. A refused member is given with the message of the exception it throws.
- Hibernate sessions, criteria and transactions are not modelled. They are replaced by the abstract table and an atomic append.
- `create` never rolls back a failed save, so the transaction on the shared session can stay open and later calls can fail too. The model covers this only in that each call's `fault` can be chosen freely; it does not derive later faults from earlier ones.
- The criteria restriction on `value` compares under the database's collation. The model takes that equality to be exact string equality; under a case- or accent-insensitive collation more values would count as duplicates.
- Concurrent `create` calls, and their check-then-act race, are not modelled. The model is sequential.
- A port failure during the lookups inside `create` is not modelled. Only the save takes a `fault`. A failing first lookup would give the same 500 with an unchanged table as a failing save. A failing lookup after the commit would give 500 with the row already saved. The model does not produce that outcome.
- The order of `getAll`'s list is the model's choice: insertion order. The criteria query has no ORDER BY, so the database may return the rows in any order.
- ServiceFactory.Save: the Hibernate not-null violation message is abbreviated to its fixed prefix. Hibernate appends the entity and property names.
- ServiceFactory.Save: a failed save leaves the IDENTITY counter where it was. A database insert that fails may still use up an identity value, so the ids the model promises after a failed save (in `Create`, `CreateFresh` and `PostCreates`) can be lower than the database would assign.
- ServiceFactory.Save: the record always gets the next IDENTITY value, whatever id the constructed entity carries, as `save` assigns a generated id to a new instance.
- Entities.IdValueTable: ids are unbounded integers. The 32-bit Java `int` width is not modelled. Ids come from the database counter and never approach the limit in this model.
- Null messages (`getMessage()` returning null) are not modelled. Neither is a null request-value key nor a null value passed directly to `create`.
- ServiceFactory.CreatePreservesUniqueness: this is stated only for a constructor that keeps its value (`ConformsAt`). Without that convention the property is false, as `NonConformingConstructorBreaksUniqueness` shows.
- ControllerFactory.PostPreservesUniqueness: this is stated only for a kind whose constructor keeps every value, for the same reason.
- The reserved constants NO_CONTENT, UNAUTHORIZED, FORBIDDEN, NOT_FOUND and METHOD_NOT_ALLOWED are modelled but never emitted, as in the code.
- `ErrorDTO` getters and the `FactoryException` constructor only hold a message and a status. They are plain datatype fields here.
