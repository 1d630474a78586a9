/** The pure part of `EmployeeController`: reading the listing parameters
    from the query string, the request-body guard of `store` and `update`,
    and the mapping of each service outcome to an HTTP status and JSON
    envelope. Writing the body and setting headers are not modelled; a
    response is its status and the envelope it carries. */
module EmployeeController {
  import opened Outcomes
  import opened PhpValues
  import opened EmployeeEntity
  import opened EmployeeRepository
  import opened EmployeeService

  /** The query string as `getQueryParams` decodes it. */
  type Query = map<string, string>

  /** The parameters `index` copies into the filter map, in the order it
      copies them. */
  const FilterKeys: seq<string> := ["departemen", "status", "jabatan", "search", "sort_field", "sort_order"]

  /** `(int) ($q[k] ?? default)`. */
  function IntParam(q: Query, k: string, default: int): int {
    if k in q then IntCast(q[k]) else default
  }

  /** Copies each of `keys` whose query value is non-empty into `f`. */
  function CopyNonEmpty(q: Query, keys: seq<string>, f: Filters): (r: Filters)
    ensures forall k :: k in r <==> k in f || (k in keys && k in q && !EmptyString(q[k]))
    ensures forall k :: k in r ==> r[k] == if k in keys && k in q && !EmptyString(q[k]) then q[k] else f[k]
    decreases |keys|
  {
    if |keys| == 0 then f
    else
      var k := keys[0];
      assert forall x :: x in keys <==> x == k || x in keys[1..];
      CopyNonEmpty(q, keys[1..], if k in q && !EmptyString(q[k]) then f[k := q[k]] else f)
  }

  datatype IndexQuery = IndexQuery(page: int, limit: int, filters: Filters)

  /** What `index` hands to `getAllEmployees`: the page (default 1), the
      limit (default 50) and a filter map holding exactly the filter
      parameters whose values are not empty in PHP's sense. */
  function ParseIndexQuery(q: Query): (r: IndexQuery)
    ensures "page" !in q ==> r.page == 1
    ensures "limit" !in q ==> r.limit == 50
    ensures "page" in q && AllDigits(q["page"]) ==> r.page == DigitsValue(q["page"])
    ensures "limit" in q && AllDigits(q["limit"]) ==> r.limit == DigitsValue(q["limit"])
    ensures forall k :: k in r.filters <==> k in FilterKeys && k in q && !EmptyString(q[k])
    ensures forall k :: k in r.filters ==> r.filters[k] == q[k] && Active(r.filters, k)
  {
    IndexQuery(IntParam(q, "page", 1), IntParam(q, "limit", 50), CopyNonEmpty(q, FilterKeys, map[]))
  }

  /** With no query string, `index` lists page 1 of 50 rows, unfiltered. */
  lemma IndexDefaults()
    ensures ParseIndexQuery(map[]) == IndexQuery(1, 50, map[])
  {
  }

  // ---------------------------------------------------------------------
  // Responses

  /** The `data` member of a successful envelope. */
  datatype Payload = NoData | One(employee: Employee) | Many(listing: Listing)

  /** `{"success": true, "message", "data"}`, `{"success": false, "message",
      "error"}`, or the framework's own error page for an `\Error` the
      controller does not catch. */
  datatype Body = Ok(message: string, data: Payload) | Refusal(message: string, error: Option<string>) | ErrorPage

  datatype Response = Response(status: int, body: Body)

  /** A response and the store the request leaves behind. */
  datatype Exchange = Exchange(response: Response, store: Store)

  /** The reply to a failure of an operation whose `catch (\Exception)`
      answers with `failed`. A validation error gets 400 where the action
      catches `InvalidArgumentException` first. */
  function FailureReply(err: Error, catchesValidation: bool, failed: string): (resp: Response)
    ensures resp.status == 400 <==> catchesValidation && err.InvalidArgument?
    ensures resp.status == 500 <==> !(catchesValidation && err.InvalidArgument?)
    ensures resp.body.ErrorPage? <==> err.Fault?
    ensures resp.body.Refusal? ==> resp.body.error == Some(err.message)
    ensures resp.status == 400 ==> resp.body.message == "Validation error"
    ensures resp.status == 500 && !err.Fault? ==> resp.body.message == failed
  {
    match err
    case Fault(_) => Response(500, ErrorPage)
    case InvalidArgument(m) =>
      if catchesValidation then Response(400, Refusal("Validation error", Some(m)))
      else Response(500, Refusal(failed, Some(m)))
    case RuntimeFailure(m) => Response(500, Refusal(failed, Some(m)))
  }

  const BodyRequired: Response := Response(400, Refusal("Request body is required", None))
  const NotFound: Response := Response(404, Refusal("Employee not found", None))

  /** `!$data` on the parsed body: no body, or an empty one. */
  predicate BodyMissing(body: Option<map<string, Value>>) {
    body.None? || |body.value| == 0
  }

  // ---------------------------------------------------------------------
  // Actions

  /** `index`. The `\Error`s of the service, a `TypeError` or a division by
      zero, pass the `catch (\Exception)` by and reach the framework's error
      page; the database layer's refusal of a negative limit or offset is
      caught and reported. */
  function Index(lib: Library, s: Store, q: Query): (resp: Response)
    ensures var p := ParseIndexQuery(q);
      resp.status == 200 <==> Listable(p.page, p.limit)
    ensures var p := ParseIndexQuery(q);
      !OffsetFits(p.page, p.limit) || p.limit == 0 ==> resp == Response(500, ErrorPage)
    ensures var p := ParseIndexQuery(q); var o := Offset(p.page, p.limit);
      OffsetFits(p.page, p.limit) && (p.limit < 0 || o < 0) ==>
      resp == Response(500, Refusal("Failed to retrieve employees", Some(lib.refuseWindow(p.limit, o))))
    ensures resp.status == 200 ==>
      var p := ParseIndexQuery(q);
      && Listable(p.page, p.limit)
      && resp.body.Ok? && resp.body.message == "Employees retrieved successfully" && resp.body.data.Many?
      && |resp.body.data.listing.data| <= p.limit
      && resp.body.data.listing.pagination == Paginate(p.page, p.limit, Count(s.rows, p.filters))
      && forall e :: e in resp.body.data.listing.data ==> e in s.rows && Matches(e, p.filters)
  {
    ListPage(lib, s, ParseIndexQuery(q))
  }

  /** What `index` answers once the page, limit and filters are read. */
  function ListPage(lib: Library, s: Store, p: IndexQuery): (resp: Response)
    ensures resp.status == 200 <==> Listable(p.page, p.limit)
    ensures !OffsetFits(p.page, p.limit) || p.limit == 0 ==> resp == Response(500, ErrorPage)
    ensures var o := Offset(p.page, p.limit);
      OffsetFits(p.page, p.limit) && (p.limit < 0 || o < 0) ==>
      resp == Response(500, Refusal("Failed to retrieve employees", Some(lib.refuseWindow(p.limit, o))))
    ensures resp.status == 200 ==>
      && Listable(p.page, p.limit)
      && resp.body.Ok? && resp.body.message == "Employees retrieved successfully" && resp.body.data.Many?
      && |resp.body.data.listing.data| <= p.limit
      && resp.body.data.listing.pagination == Paginate(p.page, p.limit, Count(s.rows, p.filters))
      && forall e :: e in resp.body.data.listing.data ==> e in s.rows && Matches(e, p.filters)
  {
    ListingReply(GetAllEmployees(lib, s, p.page, p.limit, p.filters))
  }

  /** The reply `index` builds from the service's answer. */
  function ListingReply(r: Result<Listing>): (resp: Response)
    ensures resp.status == 200 <==> r.Success?
    ensures r.Success? ==> resp == Response(200, Ok("Employees retrieved successfully", Many(r.value)))
    ensures r.Failure? ==> resp == FailureReply(r.error, false, "Failed to retrieve employees")
  {
    match r
    case Success(listing) => Response(200, Ok("Employees retrieved successfully", Many(listing)))
    case Failure(err) => FailureReply(err, false, "Failed to retrieve employees")
  }

  /** Dropping the sort parameters changes neither the page, the limit,
      nor any filter the WHERE clause reads. */
  lemma DropSortParameters(q: Query)
    ensures ParseIndexQuery(q - {"sort_field", "sort_order"}).page == ParseIndexQuery(q).page
    ensures ParseIndexQuery(q - {"sort_field", "sort_order"}).limit == ParseIndexQuery(q).limit
    ensures var f := ParseIndexQuery(q).filters; var g := ParseIndexQuery(q - {"sort_field", "sort_order"}).filters;
      forall k :: k in QueryKeys ==> (k in f <==> k in g) && (k in f ==> f[k] == g[k])
  {
    var q2 := q - {"sort_field", "sort_order"};
    assert forall k :: k in QueryKeys ==> (k in q2 <==> k in q) && (k in q ==> q2[k] == q[k]);
    assert ("page" in q2 <==> "page" in q) && ("page" in q ==> q2["page"] == q["page"]);
    assert ("limit" in q2 <==> "limit" in q) && ("limit" in q ==> q2["limit"] == q["limit"]);
  }

  /** Two filter maps that every row matches alike give the same listing. */
  lemma ListingAgrees(lib: Library, s: Store, page: int, limit: int, f: Filters, g: Filters)
    requires forall e :: Matches(e, f) <==> Matches(e, g)
    ensures GetAllEmployees(lib, s, page, limit, f) == GetAllEmployees(lib, s, page, limit, g)
  {
    SelectAgrees(s.rows, f, g);
    var o := Offset(page, limit);
    var m := lib.refuseWindow(limit, o);
    assert FindAll(s.rows, limit, o, f, m) == FindAll(s.rows, limit, o, g, m);
  }

  /** Filter maps that agree on the keys the WHERE clause reads. */
  lemma FiltersAgree(f: Filters, g: Filters)
    requires forall k :: k in QueryKeys ==> (k in f <==> k in g) && (k in f ==> f[k] == g[k])
    ensures forall e :: Matches(e, f) <==> Matches(e, g)
  {
    forall e ensures Matches(e, f) <==> Matches(e, g) {
      OnlyQueryKeysMatter(e, f, g);
    }
  }

  /** Two query strings that parse to the same page and limit and to
      filters agreeing on the keys the WHERE clause reads get the same reply. */
  lemma IndexAgrees(lib: Library, s: Store, q: Query, q2: Query)
    requires ParseIndexQuery(q2).page == ParseIndexQuery(q).page
    requires ParseIndexQuery(q2).limit == ParseIndexQuery(q).limit
    requires var f := ParseIndexQuery(q).filters; var g := ParseIndexQuery(q2).filters;
      forall k :: k in QueryKeys ==> (k in f <==> k in g) && (k in f ==> f[k] == g[k])
    ensures Index(lib, s, q2) == Index(lib, s, q)
  {
    var p := ParseIndexQuery(q);
    var p2 := ParseIndexQuery(q2);
    FiltersAgree(p.filters, p2.filters);
    ListingAgrees(lib, s, p.page, p.limit, p.filters, p2.filters);
    assert Index(lib, s, q2) == ListingReply(GetAllEmployees(lib, s, p2.page, p2.limit, p2.filters));
    assert Index(lib, s, q) == ListingReply(GetAllEmployees(lib, s, p.page, p.limit, p.filters));
  }

  /** `sort_field` and `sort_order` are copied into the filters but nothing
      reads them: the listing is the same with or without them. */
  lemma SortParametersIgnored(lib: Library, s: Store, q: Query)
    ensures ParseIndexQuery(q - {"sort_field", "sort_order"}).page == ParseIndexQuery(q).page
    ensures ParseIndexQuery(q - {"sort_field", "sort_order"}).limit == ParseIndexQuery(q).limit
    ensures Index(lib, s, q - {"sort_field", "sort_order"}) == Index(lib, s, q)
  {
    DropSortParameters(q);
    IndexAgrees(lib, s, q, q - {"sort_field", "sort_order"});
  }

  /** `show`: the record under the id the route segment casts to, or 404. */
  function Show(s: Store, arg: string): (resp: Response)
    ensures resp.status == 404 <==> GetEmployeeById(s, IntCast(arg)).None?
    ensures resp.status == 404 ==> resp == NotFound
    ensures resp.status != 404 ==>
      resp == Response(200, Ok("Employee retrieved successfully", One(GetEmployeeById(s, IntCast(arg)).value)))
  {
    match GetEmployeeById(s, IntCast(arg))
    case None => NotFound
    case Some(e) => Response(200, Ok("Employee retrieved successfully", One(e)))
  }

  /** `store`: 400 for a missing body before the service is called,
      otherwise 201 with the created record or the failure reply. */
  function StoreEmployee(lib: Library, s: Store, body: Option<map<string, Value>>, now: int): (x: Exchange)
    ensures BodyMissing(body) ==> x == Exchange(BodyRequired, s)
    ensures !BodyMissing(body) ==> x.store == CreateEmployee(lib, s, body.value, now).store
    ensures x.response.status == 201 <==> !BodyMissing(body) && CreateEmployee(lib, s, body.value, now).result.Success?
    ensures x.response.status == 201 ==>
      x.response.body == Ok("Employee created successfully", One(CreateEmployee(lib, s, body.value, now).result.value))
    ensures x.response.status == 400 <==>
      BodyMissing(body) || (CreateEmployee(lib, s, body.value, now).result.Failure?
        && CreateEmployee(lib, s, body.value, now).result.error.InvalidArgument?)
    ensures x.response.status == 400 && !BodyMissing(body) ==>
      x.response.body == Refusal("Validation error", Some(CreateEmployee(lib, s, body.value, now).result.error.message))
    ensures !BodyMissing(body) && CreateEmployee(lib, s, body.value, now).result.Failure? ==>
      x.response == FailureReply(CreateEmployee(lib, s, body.value, now).result.error, true, "Failed to create employee")
    ensures x.response.status != 201 ==> x.store == s
    ensures StoreInvariant(s) ==> StoreInvariant(x.store)
  {
    if BodyMissing(body) then Exchange(BodyRequired, s)
    else
      var out := CreateEmployee(lib, s, body.value, now);
      match out.result
      case Success(e) => Exchange(Response(201, Ok("Employee created successfully", One(e))), out.store)
      case Failure(err) => Exchange(FailureReply(err, true, "Failed to create employee"), out.store)
  }

  /** `update`: the body guard runs before the lookup, so a missing body
      gets 400 even for an unknown id; otherwise 404 for an unknown id, 200
      with the updated record, or the failure reply. */
  function Update(lib: Library, s: Store, arg: string, body: Option<map<string, Value>>, now: int): (x: Exchange)
    ensures BodyMissing(body) ==> x == Exchange(BodyRequired, s)
    ensures !BodyMissing(body) ==> x.store == UpdateEmployee(lib, s, IntCast(arg), body.value, now).store
    ensures x.response.status == 404 <==>
      !BodyMissing(body) && forall e :: e in s.rows ==> e.id != Some(IntCast(arg))
    ensures x.response.status == 200 <==>
      !BodyMissing(body) && UpdateEmployee(lib, s, IntCast(arg), body.value, now).result.Success?
      && UpdateEmployee(lib, s, IntCast(arg), body.value, now).result.value.Some?
    ensures x.response.status == 400 <==>
      BodyMissing(body) || (UpdateEmployee(lib, s, IntCast(arg), body.value, now).result.Failure?
        && UpdateEmployee(lib, s, IntCast(arg), body.value, now).result.error.InvalidArgument?)
    ensures x.response.status == 400 && !BodyMissing(body) ==>
      x.response.body == Refusal("Validation error", Some(UpdateEmployee(lib, s, IntCast(arg), body.value, now).result.error.message))
    ensures !BodyMissing(body) && UpdateEmployee(lib, s, IntCast(arg), body.value, now).result.Failure? ==>
      x.response == FailureReply(UpdateEmployee(lib, s, IntCast(arg), body.value, now).result.error, true, "Failed to update employee")
    ensures x.response.status != 200 ==> x.store == s
    ensures StoreInvariant(s) ==> StoreInvariant(x.store)
  {
    if BodyMissing(body) then Exchange(BodyRequired, s)
    else
      var out := UpdateEmployee(lib, s, IntCast(arg), body.value, now);
      match out.result
      case Success(None) => Exchange(NotFound, out.store)
      case Success(Some(e)) => Exchange(Response(200, Ok("Employee updated successfully", One(e))), out.store)
      case Failure(err) => Exchange(FailureReply(err, true, "Failed to update employee"), out.store)
  }

  /** `destroy`: 404 when no row has the id, otherwise 200 and the row is gone. */
  function Destroy(s: Store, arg: string): (x: Exchange)
    ensures x.response.status == 404 <==> forall e :: e in s.rows ==> e.id != Some(IntCast(arg))
    ensures x.response.status == 404 ==> x == Exchange(NotFound, s)
    ensures x.response.status != 404 ==>
      x.response == Response(200, Ok("Employee deleted successfully", NoData))
    ensures x.store == DeleteEmployee(s, IntCast(arg)).store
  {
    var out := DeleteEmployee(s, IntCast(arg));
    if out.result.value then Exchange(Response(200, Ok("Employee deleted successfully", NoData)), out.store)
    else Exchange(NotFound, out.store)
  }

  /** The id a created record gets is the one a `show` of its decimal form
      finds it under. */
  lemma StoreThenShow(lib: Library, s: Store, body: Option<map<string, Value>>, now: int, arg: string)
    requires StoreInvariant(s)
    requires StoreEmployee(lib, s, body, now).response.status == 201
    requires AllDigits(arg) && DigitsValue(arg) == s.nextId
    ensures Show(StoreEmployee(lib, s, body, now).store, arg)
      == Response(200, Ok("Employee retrieved successfully", StoreEmployee(lib, s, body, now).response.body.data))
  {
    CreateThenGet(lib, s, body.value, now, s.nextId);
  }

  /** After a successful `destroy`, `show` and a second `destroy` of the
      same id answer 404. */
  lemma DestroyThenShow(s: Store, arg: string)
    requires StoreInvariant(s)
    ensures Show(Destroy(s, arg).store, arg) == NotFound
    ensures Destroy(Destroy(s, arg).store, arg).response == NotFound
  {
    DeleteThenGet(s, IntCast(arg));
  }
}
