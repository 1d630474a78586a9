/** `EmployeeService`: the listing with its pagination summary, the ordered
    validation of a request body, the partial field merge, and create,
    update and delete over a store that keeps NIPs and emails unique.

    The database is the `Store`: the stored rows plus the next value of the
    `AUTO_INCREMENT` id. Each operation returns its result together with the
    store it leaves behind. */
module EmployeeService {
  import opened Outcomes
  import opened PhpValues
  import opened EmployeeEntity
  import opened EmployeeRepository

  /** The library behaviour the service depends on, passed in:
      `filter_var($v, FILTER_VALIDATE_EMAIL)` (truthy or not),
      `DateTime::createFromFormat('Y-m-d', $s)` (a date, or `false`), and
      the message of the exception the database layer raises for a query
      with the given negative LIMIT or OFFSET. */
  datatype Library = Library(
    isEmail: Value -> bool, parseDate: string -> Option<Date>, refuseWindow: (int, int) -> string)

  datatype Store = Store(rows: seq<Employee>, nextId: int)

  /** What an operation returns and the store it leaves behind. */
  datatype Outcome<T> = Outcome(result: Result<T>, store: Store)

  predicate UniqueNips(rows: seq<Employee>) {
    forall i, j :: 0 <= i < j < |rows| ==> rows[i].nip != rows[j].nip
  }

  predicate UniqueEmails(rows: seq<Employee>) {
    forall i, j :: 0 <= i < j < |rows| ==> rows[i].email != rows[j].email
  }

  predicate UniqueIds(rows: seq<Employee>) {
    forall i, j :: 0 <= i < j < |rows| ==> rows[i].id != rows[j].id
  }

  /** What the table guarantees: every row has an id below the next one to
      be assigned, ids, NIPs and emails are unique, and every status is one
      of the allowed three. */
  predicate StoreInvariant(s: Store) {
    && (forall i :: 0 <= i < |s.rows| ==> s.rows[i].id.Some? && s.rows[i].id.value < s.nextId)
    && UniqueIds(s.rows)
    && UniqueNips(s.rows)
    && UniqueEmails(s.rows)
    && (forall i :: 0 <= i < |s.rows| ==> ValidStatus(s.rows[i].status))
  }

  // ---------------------------------------------------------------------
  // Pagination

  datatype Pagination = Pagination(
    currentPage: int, perPage: int, total: nat, totalPages: nat, hasNext: bool, hasPrev: bool)

  datatype Listing = Listing(data: seq<Employee>, pagination: Pagination)

  /** `($page - 1) * $limit`. */
  function Offset(page: int, limit: int): int {
    (page - 1) * limit
  }

  /** `(int) ceil($total / $limit)`: the least number of pages of `limit`
      rows that hold `total` rows. */
  function CeilDiv(total: nat, limit: int): (n: nat)
    requires limit > 0
    ensures n * limit >= total
    ensures (n - 1) * limit < total
  {
    var q := (total + limit - 1) / limit;
    var rem := (total + limit - 1) % limit;
    assert q * limit + rem == total + limit - 1;
    q
  }

  lemma MulMonotone(a: int, b: int, c: int)
    requires a <= b && c >= 0
    ensures a * c <= b * c
  {
    assert b * c - a * c == (b - a) * c;
  }

  /** For a page count that is the ceiling of `total / limit`, a page lies
      before the last one exactly when rows remain past its end. */
  lemma BeforeLastPage(page: int, limit: int, pages: int, total: int)
    requires limit > 0
    requires pages * limit >= total && (pages - 1) * limit < total
    ensures page < pages <==> page * limit < total
  {
    if page < pages {
      MulMonotone(page, pages - 1, limit);
    } else {
      MulMonotone(pages, page, limit);
    }
  }

  /** The offset is positive exactly when the page is past the first. */
  lemma OffsetPositive(page: int, limit: int)
    requires limit > 0
    ensures Offset(page, limit) > 0 <==> page > 1
  {
    if page > 1 {
      MulMonotone(1, page - 1, limit);
    } else {
      MulMonotone(page - 1, 0, limit);
    }
  }

  /** The pagination summary of `getAllEmployees`. The division is unguarded
      in the source, so a positive limit is required here. */
  function Paginate(page: int, limit: int, total: nat): (p: Pagination)
    requires limit > 0
    ensures p.currentPage == page && p.perPage == limit && p.total == total
    ensures p.totalPages * limit >= total && (p.totalPages - 1) * limit < total
    ensures p.hasNext <==> page * limit < total
    ensures p.hasPrev <==> Offset(page, limit) > 0
  {
    var pages := CeilDiv(total, limit);
    BeforeLastPage(page, limit, pages, total);
    OffsetPositive(page, limit);
    Pagination(page, limit, total, pages, page < pages, page > 1)
  }

  /** A value PHP holds as an `int` on a 64-bit build. Integer arithmetic
      whose result leaves this range yields a `float` instead. */
  predicate PhpInt(x: int) {
    -0x8000_0000_0000_0000 <= x <= 0x7fff_ffff_ffff_ffff
  }

  /** Both `$page - 1` and `($page - 1) * $limit` stay integers. */
  predicate OffsetFits(page: int, limit: int) {
    PhpInt(page - 1) && PhpInt(Offset(page, limit))
  }

  /** The page and limit for which `getAllEmployees` returns a listing. */
  predicate Listable(page: int, limit: int) {
    OffsetFits(page, limit) && limit > 0 && Offset(page, limit) >= 0
  }

  /** `getAllEmployees($page, $limit, $filters)`: one page of matching rows
      and the summary. In the order the source meets them: an offset that
      is no longer an integer is a `float`, which `findAll(int, int, array)`
      refuses with a `TypeError` under strict types; a negative limit or
      offset makes the database layer throw; and a zero limit reaches
      `$total / $limit` and raises `DivisionByZeroError`. */
  function GetAllEmployees(lib: Library, s: Store, page: int, limit: int, f: Filters): (r: Result<Listing>)
    ensures r.Success? <==> Listable(page, limit)
    ensures !OffsetFits(page, limit) ==> r == Failure(TypeError)
    ensures OffsetFits(page, limit) && (limit < 0 || Offset(page, limit) < 0) ==>
      r == Failure(RuntimeFailure(lib.refuseWindow(limit, Offset(page, limit))))
    ensures OffsetFits(page, limit) && limit == 0 ==> r == Failure(Fault("Division by zero"))
    ensures r.Success? ==> |r.value.data| <= limit
    ensures r.Success? ==> NewestFirst(r.value.data)
    ensures r.Success? ==> forall e :: e in r.value.data ==> e in s.rows && Matches(e, f)
    ensures r.Success? ==> r.value.pagination == Paginate(page, limit, Count(s.rows, f))
    ensures r.Success? ==> (|r.value.data| > 0 <==> page <= r.value.pagination.totalPages)
    ensures r.Success? ==> Success(r.value.data) == FindAll(s.rows, limit, Offset(page, limit), f, "")
  {
    var offset := Offset(page, limit);
    if !OffsetFits(page, limit) then Failure(TypeError)
    else
      match FindAll(s.rows, limit, offset, f, lib.refuseWindow(limit, offset))
      case Failure(e) => Failure(e)
      case Success(data) =>
        if limit == 0 then Failure(Fault("Division by zero"))
        else
          var total := Count(s.rows, f);
          var p := Paginate(page, limit, total);
          PageHasRows(total, limit, page);
          Success(Listing(data, p))
  }

  /** A page has rows exactly when it is not past the last page. */
  lemma PageHasRows(total: nat, limit: int, page: int)
    requires limit > 0 && Offset(page, limit) >= 0
    ensures Remaining(total, limit, Offset(page, limit)) > 0 <==> page <= Paginate(page, limit, total).totalPages
  {
    var pages := Paginate(page, limit, total).totalPages;
    BeforeLastPage(page - 1, limit, pages, total);
  }

  /** Page `page` of the listing is the window of the sorted matches that
      starts at the page's offset. */
  lemma PageIsWindow(lib: Library, s: Store, f: Filters, limit: int, page: int)
    requires limit > 0 && page >= 1 && OffsetFits(page, limit)
    ensures GetAllEmployees(lib, s, page, limit, f).Success? && Offset(page, limit) >= 0
    ensures GetAllEmployees(lib, s, page, limit, f).value.data
      == Window(SortNewestFirst(Select(s.rows, f)), limit, Offset(page, limit))
  {
    OffsetPositive(page, limit);
    var o := Offset(page, limit);
    assert Success(GetAllEmployees(lib, s, page, limit, f).value.data) == FindAll(s.rows, limit, o, f, "");
  }

  /** The windows of `xs` for pages `page` to `last`, concatenated. */
  function Windows(xs: seq<Employee>, limit: int, page: int, last: int): seq<Employee>
    requires limit > 0 && page >= 1
    decreases last - page
  {
    if page > last then []
    else
      OffsetPositive(page, limit);
      Window(xs, limit, Offset(page, limit)) + Windows(xs, limit, page + 1, last)
  }

  /** Consecutive windows up to a page count that covers `xs` tile the rest
      of `xs` from the first window's offset. */
  lemma {:induction false} WindowsTile(xs: seq<Employee>, limit: int, page: int, last: int)
    requires limit > 0 && page >= 1 && last * limit >= |xs|
    ensures Offset(page, limit) >= 0
    ensures Windows(xs, limit, page, last) == xs[Min(Offset(page, limit), |xs|)..]
    decreases last - page
  {
    OffsetPositive(page, limit);
    if page > last {
      MulMonotone(last, page - 1, limit);
    } else {
      WindowsTile(xs, limit, page + 1, last);
      OffsetNext(page, limit);
      TileStep(xs, limit, Offset(page, limit), Windows(xs, limit, page + 1, last));
    }
  }

  /** One window followed by the rest of the list from the window's end is
      the rest of the list from the window's start. */
  lemma TileStep(xs: seq<Employee>, limit: int, o: int, rest: seq<Employee>)
    requires limit > 0 && o >= 0 && rest == xs[Min(o + limit, |xs|)..]
    ensures Window(xs, limit, o) + rest == xs[Min(o, |xs|)..]
  {
    if o < |xs| {
      var m := Min(o + limit, |xs|);
      assert Window(xs, limit, o) == xs[o..m];
      assert xs[o..] == xs[o..m] + xs[m..];
    }
  }

  /** The next page starts `limit` rows further on. */
  lemma OffsetNext(page: int, limit: int)
    ensures Offset(page + 1, limit) == Offset(page, limit) + limit
  {
  }

  /** The pages as the database serves them: each page is its own
      `ORDER BY created_at DESC` query, free to order rows of equal
      `created_at` its own way, so page `page + i` is the window of
      `orders[i]`. */
  function Joined(orders: seq<seq<Employee>>, limit: int, page: int): seq<Employee>
    requires limit > 0 && page >= 1
    decreases |orders|
  {
    if |orders| == 0 then []
    else
      OffsetPositive(page, limit);
      Window(orders[0], limit, Offset(page, limit)) + Joined(orders[1..], limit, page + 1)
  }

  /** Pages served from one and the same order are its windows. */
  lemma {:induction false} JoinedIsWindows(orders: seq<seq<Employee>>, xs: seq<Employee>, limit: int, page: int)
    requires limit > 0 && page >= 1
    requires forall i :: 0 <= i < |orders| ==> orders[i] == xs
    ensures Joined(orders, limit, page) == Windows(xs, limit, page, page + |orders| - 1)
    decreases |orders|
  {
    if |orders| > 0 {
      JoinedIsWindows(orders[1..], xs, limit, page + 1);
    }
  }

  /** No two matching rows share a creation time unless they are the same
      row: the `createdAt DESC` order then leaves no ties to break. */
  predicate TimesIdentifyMatches(rows: seq<Employee>, f: Filters) {
    forall x, y :: x in rows && y in rows && Matches(x, f) && Matches(y, f) && x.createdAt == y.createdAt ==> x == y
  }

  /** Pages 1 to `total_pages`, each served in any newest-first order of
      the matching rows, hold every matching row exactly once, newest
      first, provided no two matching rows tie on `created_at`. */
  lemma PagesCoverMatches(s: Store, f: Filters, limit: int, orders: seq<seq<Employee>>)
    requires limit > 0
    requires TimesIdentifyMatches(s.rows, f)
    requires |orders| == CeilDiv(Count(s.rows, f), limit)
    requires forall i :: 0 <= i < |orders| ==>
      NewestFirst(orders[i]) && multiset(orders[i]) == multiset(Select(s.rows, f))
    ensures Joined(orders, limit, 1) == SortNewestFirst(Select(s.rows, f))
    ensures multiset(Joined(orders, limit, 1)) == multiset(Select(s.rows, f))
  {
    var sorted := SortNewestFirst(Select(s.rows, f));
    var last := CeilDiv(Count(s.rows, f), limit);
    forall i | 0 <= i < |orders| ensures orders[i] == sorted {
      SelectedRowsMatch(s.rows, f, orders[i]);
      NewestFirstIsUnique(orders[i], sorted);
    }
    JoinedIsWindows(orders, sorted, limit, 1);
    CountIsNumberOfMatches(s.rows, f);
    assert |sorted| == Count(s.rows, f);
    WindowsTile(sorted, limit, 1, last);
    assert sorted[0..] == sorted;
  }

  /** Without distinct creation times the pages can disagree: two rows
      created at the same moment, one per page, served in opposite orders,
      show the same row twice and the other not at all. */
  lemma TiedRowsCanRepeat(x: Employee, y: Employee)
    requires x != y && x.createdAt == y.createdAt
    ensures NewestFirst([x, y]) && NewestFirst([y, x]) && multiset([x, y]) == multiset([y, x])
    ensures Joined([[x, y], [y, x]], 1, 1) == [x, x]
  {
    var orders := [[x, y], [y, x]];
    assert orders[1..] == [[y, x]] && orders[1..][1..] == [];
    assert Window([x, y], 1, Offset(1, 1)) == [x];
    assert Joined([[y, x]], 1, 2) == Window([y, x], 1, Offset(2, 1)) + Joined([], 1, 3) == [x];
  }

  // ---------------------------------------------------------------------
  // Validation

  /** The fields `validateEmployeeData` requires, in the order it checks them. */
  const RequiredFields: seq<string> := ["nip", "nama_lengkap", "email", "jabatan", "departemen", "tanggal_masuk", "gaji"]

  /** The first of `fields` that is unset or empty in `data`. */
  function FirstMissing(data: map<string, Value>, fields: seq<string>): (r: Option<string>)
    ensures r.None? <==> forall i :: 0 <= i < |fields| ==> Filled(data, fields[i])
    ensures r.Some? ==> exists i :: (0 <= i < |fields| && fields[i] == r.value && !Filled(data, r.value)
      && forall j :: 0 <= j < i ==> Filled(data, fields[j]))
  {
    if |fields| == 0 then None
    else if !Filled(data, fields[0]) then Some(fields[0])
    else
      var r := FirstMissing(data, fields[1..]);
      assert r.Some? ==> exists i :: (0 <= i < |fields| && fields[i] == r.value && !Filled(data, r.value)
        && forall j :: 0 <= j < i ==> Filled(data, fields[j])) by {
        if r.Some? {
          var i :| 0 <= i < |fields| - 1 && fields[1..][i] == r.value && !Filled(data, r.value)
            && forall j :: 0 <= j < i ==> Filled(data, fields[1..][j]);
          assert fields[i + 1] == r.value;
          assert forall j :: 0 <= j < i + 1 ==> Filled(data, fields[j]) by {
            forall j | 0 < j < i + 1 ensures Filled(data, fields[j]) {
              assert fields[j] == fields[1..][j - 1];
            }
          }
        }
      }
      assert r.None? <==> forall i :: 0 <= i < |fields| ==> Filled(data, fields[i]) by {
        assert forall i :: 0 < i < |fields| ==> fields[i] == fields[1..][i - 1];
      }
      r
  }

  /** The string held under key `k`, if it holds a string. */
  function StrArg(data: map<string, Value>, k: string): Option<string> {
    if k in data && data[k].VStr? then Some(data[k].s) else None
  }

  /** `in_array($v, ['aktif', 'non_aktif', 'cuti'])` with PHP 8 loose comparison. */
  predicate StatusAccepted(v: Value) {
    LooselyEqualsWord(v, "aktif") || LooselyEqualsWord(v, "non_aktif") || LooselyEqualsWord(v, "cuti")
  }

  /** The loose comparison lets exactly the three names and `true` through. */
  lemma StatusAcceptedValues(v: Value)
    ensures StatusAccepted(v) <==> (v.VStr? && ValidStatus(v.s)) || v == VBool(true)
  {
  }

  /** The salary value: numeric and not negative. */
  predicate SalaryOk(v: Value) {
    Numeric(v).Some? && Numeric(v).value >= 0.0
  }

  /** A body that passes every check of `validateEmployeeData`. The checks
      run in order, and the first that fails decides the error; passing
      them all does not depend on that order. */
  predicate ValidPayload(lib: Library, data: map<string, Value>) {
    && Filled(data, "nip") && Filled(data, "nama_lengkap") && Filled(data, "email")
    && Filled(data, "jabatan") && Filled(data, "departemen") && Filled(data, "tanggal_masuk")
    && Filled(data, "gaji")
    && lib.isEmail(data["email"])
    && (Isset(data, "status") ==> StatusAccepted(data["status"]))
    && SalaryOk(data["gaji"])
    && StrArg(data, "tanggal_masuk").Some? && lib.parseDate(StrArg(data, "tanggal_masuk").value).Some?
  }

  /** `validateEmployeeData`. Every failure is an `InvalidArgumentException`
      except a non-string `tanggal_masuk`, which `createFromFormat` refuses
      with a `TypeError` under strict typing. */
  function RequiredMessage(field: string): string {
    "Field " + field + " is required"
  }

  function Validate(lib: Library, data: map<string, Value>): (r: Check)
    ensures r.Pass? <==> ValidPayload(lib, data)
    ensures r.Fail? && r.error.Fault? ==> !ValidPayload(lib, data) && !StrArg(data, "tanggal_masuk").Some?
    ensures FirstMissing(data, RequiredFields).Some? ==>
      r == Fail(InvalidArgument(RequiredMessage(FirstMissing(data, RequiredFields).value)))
    ensures FirstMissing(data, RequiredFields).None? ==> "email" in data && "gaji" in data && "tanggal_masuk" in data
    ensures FirstMissing(data, RequiredFields).None? && !lib.isEmail(data["email"]) ==>
      r == Fail(InvalidArgument("Invalid email format"))
    ensures (FirstMissing(data, RequiredFields).None? && lib.isEmail(data["email"])
      && Isset(data, "status") && !StatusAccepted(data["status"])) ==>
      r == Fail(InvalidArgument("Invalid status value"))
    ensures (FirstMissing(data, RequiredFields).None? && lib.isEmail(data["email"])
      && (Isset(data, "status") ==> StatusAccepted(data["status"])) && !SalaryOk(data["gaji"])) ==>
      r == Fail(InvalidArgument("Gaji must be a positive number"))
    ensures (FirstMissing(data, RequiredFields).None? && lib.isEmail(data["email"])
      && (Isset(data, "status") ==> StatusAccepted(data["status"])) && SalaryOk(data["gaji"])) ==>
      r == (if !data["tanggal_masuk"].VStr? then Fail(TypeError)
            else if lib.parseDate(data["tanggal_masuk"].s).None? then Fail(InvalidArgument("Invalid tanggal_masuk format. Use Y-m-d"))
            else Pass)
  {
    match FirstMissing(data, RequiredFields)
    case Some(f) =>
      assert !ValidPayload(lib, data) by {
        var i :| 0 <= i < |RequiredFields| && RequiredFields[i] == f && !Filled(data, f);
      }
      Fail(InvalidArgument(RequiredMessage(f)))
    case None =>
      assert Filled(data, RequiredFields[0]) && Filled(data, RequiredFields[1]) && Filled(data, RequiredFields[2]);
      assert Filled(data, RequiredFields[3]) && Filled(data, RequiredFields[4]);
      assert Filled(data, RequiredFields[5]) && Filled(data, RequiredFields[6]);
      if !lib.isEmail(data["email"]) then Fail(InvalidArgument("Invalid email format"))
      else if Isset(data, "status") && !StatusAccepted(data["status"]) then Fail(InvalidArgument("Invalid status value"))
      else if !SalaryOk(data["gaji"]) then Fail(InvalidArgument("Gaji must be a positive number"))
      else if !data["tanggal_masuk"].VStr? then Fail(TypeError)
      else if lib.parseDate(data["tanggal_masuk"].s).None? then Fail(InvalidArgument("Invalid tanggal_masuk format. Use Y-m-d"))
      else Pass
  }

  /** `empty()` runs before the salary check, so a zero salary written as
      `0` or `"0"` is reported as a missing field, not as a bad salary. */
  lemma ZeroSalaryIsMissing(lib: Library, data: map<string, Value>)
    requires Filled(data, "nip") && Filled(data, "nama_lengkap") && Filled(data, "email")
    requires Filled(data, "jabatan") && Filled(data, "departemen") && Filled(data, "tanggal_masuk")
    requires "gaji" in data && (data["gaji"] == VInt(0) || data["gaji"] == VStr("0"))
    ensures Validate(lib, data) == Fail(InvalidArgument(RequiredMessage("gaji")))
  {
    var r := FirstMissing(data, RequiredFields);
    assert !Filled(data, RequiredFields[6]);
    var i :| 0 <= i < |RequiredFields| && RequiredFields[i] == r.value && !Filled(data, r.value);
    assert i == 6;
  }

  /** The same zero written `"0.0"` is not empty in PHP's sense, and it is
      numeric and not negative, so it passes both checks. */
  lemma ZeroPointZeroSalaryPasses(data: map<string, Value>)
    requires "gaji" in data && data["gaji"] == VStr("0.0")
    ensures Filled(data, "gaji") && SalaryOk(data["gaji"])
    ensures Numeric(data["gaji"]) == Some(0.0)
  {
    var s := "0.0";
    assert SplitSign(s) == (false, s);
    assert DotIndex(s) == 1 by {
      assert s[0] != '.' && s[1] == '.';
      assert DotIndex(s[1..]) == 0;
    }
    assert s[..1] == "0" && s[2..] == "0";
    assert AllDigits("0") && DigitsValue("0") == 0 by {
      assert "0"[..0] == [];
    }
    assert UnsignedDecimal(s) == Some(0.0);
  }

  // ---------------------------------------------------------------------
  // Field merge

  /** A string field after the merge: overwritten by the body's value when
      the key is set, unchanged otherwise. */
  predicate Merged(data: map<string, Value>, k: string, before: string, after: string) {
    if Isset(data, k) then data[k] == VStr(after) else after == before
  }

  predicate MergedOptional(data: map<string, Value>, k: string, before: Option<string>, after: Option<string>) {
    if Isset(data, k) then after.Some? && data[k] == VStr(after.value) else after == before
  }

  /** A set key holds a string. The setters of the string fields are
      strictly typed, so any other value there raises a `TypeError`. */
  predicate Typed(data: map<string, Value>, k: string) {
    Isset(data, k) ==> data[k].VStr?
  }

  predicate StringTyped(data: map<string, Value>) {
    && Typed(data, "nip") && Typed(data, "nama_lengkap") && Typed(data, "email")
    && Typed(data, "no_telepon") && Typed(data, "jabatan") && Typed(data, "departemen")
    && Typed(data, "status") && Typed(data, "alamat")
  }

  /** One string setter step: call `setter` when the key is set; a value
      that is not a string is refused as the typed setter would refuse it. */
  function SetString(e: Employee, data: map<string, Value>, k: string, setter: (Employee, string) -> Employee):
    (r: Result<Employee>)
    ensures r.Success? <==> Typed(data, k)
    ensures r.Failure? ==> r.error == TypeError
    ensures r.Success? ==> r.value == if Isset(data, k) then setter(e, data[k].s) else e
  {
    if !Isset(data, k) then Success(e)
    else if data[k].VStr? then Success(setter(e, data[k].s))
    else Failure(TypeError)
  }

  function SetOptional(e: Employee, data: map<string, Value>, k: string, setter: (Employee, Option<string>) -> Employee):
    (r: Result<Employee>)
    ensures r.Success? <==> Typed(data, k)
    ensures r.Failure? ==> r.error == TypeError
    ensures r.Success? ==> r.value == if Isset(data, k) then setter(e, Some(data[k].s)) else e
  {
    if !Isset(data, k) then Success(e)
    else if data[k].VStr? then Success(setter(e, Some(data[k].s)))
    else Failure(TypeError)
  }

  /** The status step of the merge. Validation has already let only the
      three names or `true` through, so a string here is always accepted by
      the guarded setter. */
  function SetStatusField(e: Employee, data: map<string, Value>): (r: Result<Employee>)
    requires Isset(data, "status") ==> StatusAccepted(data["status"])
    ensures r.Success? <==> Typed(data, "status")
    ensures r.Failure? ==> r.error == TypeError
    ensures r.Success? ==> Merged(data, "status", e.status, r.value.status)
    ensures r.Success? ==> r.value.(status := e.status) == e
    ensures r.Success? && ValidStatus(e.status) ==> ValidStatus(r.value.status)
  {
    if !Isset(data, "status") then Success(e)
    else if data["status"].VStr? then
      StatusAcceptedValues(data["status"]);
      SetStatus(e, data["status"].s)
    else Failure(TypeError)
  }

  /** The first four setter steps: NIP, name, email and phone. */
  function MergeContact(e: Employee, data: map<string, Value>): (r: Result<Employee>)
    ensures r.Success? <==> Typed(data, "nip") && Typed(data, "nama_lengkap") && Typed(data, "email") && Typed(data, "no_telepon")
    ensures r.Failure? ==> r.error == TypeError
    ensures r.Success? ==> Merged(data, "nip", e.nip, r.value.nip)
    ensures r.Success? ==> Merged(data, "nama_lengkap", e.namaLengkap, r.value.namaLengkap)
    ensures r.Success? ==> Merged(data, "email", e.email, r.value.email)
    ensures r.Success? ==> MergedOptional(data, "no_telepon", e.noTelepon, r.value.noTelepon)
    ensures r.Success? ==> r.value.(nip := e.nip, namaLengkap := e.namaLengkap, email := e.email, noTelepon := e.noTelepon) == e
  {
    var e1 :- SetString(e, data, "nip", SetNip);
    var e2 :- SetString(e1, data, "nama_lengkap", SetNamaLengkap);
    var e3 :- SetString(e2, data, "email", SetEmail);
    SetOptional(e3, data, "no_telepon", SetNoTelepon)
  }

  /** The position steps: job title and department. */
  function MergePosition(e: Employee, data: map<string, Value>): (r: Result<Employee>)
    ensures r.Success? <==> Typed(data, "jabatan") && Typed(data, "departemen")
    ensures r.Failure? ==> r.error == TypeError
    ensures r.Success? ==> Merged(data, "jabatan", e.jabatan, r.value.jabatan)
    ensures r.Success? ==> Merged(data, "departemen", e.departemen, r.value.departemen)
    ensures r.Success? ==> r.value.(jabatan := e.jabatan, departemen := e.departemen) == e
  {
    var e1 :- SetString(e, data, "jabatan", SetJabatan);
    SetString(e1, data, "departemen", SetDepartemen)
  }

  /** The last steps: status and address. */
  function MergeStatusAddress(e: Employee, data: map<string, Value>): (r: Result<Employee>)
    requires Isset(data, "status") ==> StatusAccepted(data["status"])
    ensures r.Success? <==> Typed(data, "status") && Typed(data, "alamat")
    ensures r.Failure? ==> r.error == TypeError
    ensures r.Success? ==> Merged(data, "status", e.status, r.value.status)
    ensures r.Success? && ValidStatus(e.status) ==> ValidStatus(r.value.status)
    ensures r.Success? ==> MergedOptional(data, "alamat", e.alamat, r.value.alamat)
    ensures r.Success? ==> r.value.(status := e.status, alamat := e.alamat) == e
  {
    var e1 :- SetStatusField(e, data);
    SetOptional(e1, data, "alamat", SetAlamat)
  }

  /** `mapDataToEmployee`: each key that is set overwrites its field, in the
      source's order; every other field keeps its value. It is only called on
      a body that passed validation, so the date parses and the salary is
      numeric. */
  function Merge(lib: Library, e: Employee, data: map<string, Value>): (r: Result<Employee>)
    requires ValidPayload(lib, data)
    ensures r.Success? <==> StringTyped(data)
    ensures r.Failure? ==> r.error == TypeError
    ensures r.Success? ==> Merged(data, "nip", e.nip, r.value.nip)
    ensures r.Success? ==> Merged(data, "nama_lengkap", e.namaLengkap, r.value.namaLengkap)
    ensures r.Success? ==> Merged(data, "email", e.email, r.value.email)
    ensures r.Success? ==> MergedOptional(data, "no_telepon", e.noTelepon, r.value.noTelepon)
    ensures r.Success? ==> Merged(data, "jabatan", e.jabatan, r.value.jabatan)
    ensures r.Success? ==> Merged(data, "departemen", e.departemen, r.value.departemen)
    ensures r.Success? ==> r.value.tanggalMasuk == lib.parseDate(StrArg(data, "tanggal_masuk").value).value
    ensures r.Success? ==> r.value.gaji == Numeric(data["gaji"]).value
    ensures r.Success? ==> Merged(data, "status", e.status, r.value.status)
    ensures r.Success? && ValidStatus(e.status) ==> ValidStatus(r.value.status)
    ensures r.Success? ==> MergedOptional(data, "alamat", e.alamat, r.value.alamat)
    ensures r.Success? ==> r.value.id == e.id && r.value.createdAt == e.createdAt && r.value.updatedAt == e.updatedAt
  {
    var e1 :- MergeContact(e, data);
    var e2 :- MergePosition(e1, data);
    var e3 := SetTanggalMasuk(e2, lib.parseDate(StrArg(data, "tanggal_masuk").value).value);
    var e4 := SetGaji(e3, Numeric(data["gaji"]).value);
    MergeStatusAddress(e4, data)
  }

  // ---------------------------------------------------------------------
  // Lookups under the store invariant

  /** The position of the row with id `id`, if there is one. */
  function IndexOfId(rows: seq<Employee>, id: int): (r: Option<nat>)
    ensures r.Some? ==> r.value < |rows| && rows[r.value].id == Some(id)
    ensures r.None? <==> forall i :: 0 <= i < |rows| ==> rows[i].id != Some(id)
  {
    if |rows| == 0 then None
    else if rows[0].id == Some(id) then Some(0)
    else
      match IndexOfId(rows[1..], id)
      case None =>
        assert forall i :: 0 < i < |rows| ==> rows[i] == rows[1..][i - 1];
        None
      case Some(k) => Some(k + 1)
  }

  /** `getEmployeeById($id)`: the stored row with that id, or `None`. */
  function GetEmployeeById(s: Store, id: int): (r: Option<Employee>)
    ensures r.Some? ==> r.value in s.rows && r.value.id == Some(id)
    ensures r.None? <==> forall e :: e in s.rows ==> e.id != Some(id)
  {
    FindById(s.rows, id)
  }

  /** With unique ids, the lookup by id finds the one row carrying it. */
  lemma FindByIdIsUnique(s: Store, i: int, id: int)
    requires StoreInvariant(s) && 0 <= i < |s.rows| && s.rows[i].id == Some(id)
    ensures GetEmployeeById(s, id) == Some(s.rows[i])
    ensures IndexOfId(s.rows, id) == Some(i)
  {
    var e := GetEmployeeById(s, id).value;
    var j :| 0 <= j < |s.rows| && s.rows[j] == e;
    assert i == j by {
      assert s.rows[i].id == s.rows[j].id;
    }
    var k := IndexOfId(s.rows, id).value;
    assert i == k by {
      assert s.rows[i].id == s.rows[k].id;
    }
  }

  /** With unique NIPs, the lookup by NIP finds the one row carrying it. */
  lemma FindByNipIsUnique(rows: seq<Employee>, i: int, nip: string)
    requires UniqueNips(rows) && 0 <= i < |rows| && rows[i].nip == nip
    ensures FindByNip(rows, nip) == Some(rows[i])
  {
    var e := FindByNip(rows, nip).value;
    var j :| 0 <= j < |rows| && rows[j] == e;
    assert i == j by {
      assert rows[i].nip == rows[j].nip;
    }
  }

  /** With unique emails, the lookup by email finds the one row carrying it. */
  lemma FindByEmailIsUnique(rows: seq<Employee>, i: int, email: string)
    requires UniqueEmails(rows) && 0 <= i < |rows| && rows[i].email == email
    ensures FindByEmail(rows, email) == Some(rows[i])
  {
    var e := FindByEmail(rows, email).value;
    var j :| 0 <= j < |rows| && rows[j] == e;
    assert i == j by {
      assert rows[i].email == rows[j].email;
    }
  }

  // ---------------------------------------------------------------------
  // Create

  predicate NipTaken(rows: seq<Employee>, nip: string) {
    exists e :: e in rows && e.nip == nip
  }

  predicate EmailTaken(rows: seq<Employee>, email: string) {
    exists e :: e in rows && e.email == email
  }

  /** The record a successful create or update stores, field by field: each
      field the body sets carries the body's value, the others keep `e`'s. */
  predicate CarriesBody(lib: Library, data: map<string, Value>, e: Employee, r: Employee)
    requires ValidPayload(lib, data)
  {
    && Merged(data, "nip", e.nip, r.nip)
    && Merged(data, "nama_lengkap", e.namaLengkap, r.namaLengkap)
    && Merged(data, "email", e.email, r.email)
    && MergedOptional(data, "no_telepon", e.noTelepon, r.noTelepon)
    && Merged(data, "jabatan", e.jabatan, r.jabatan)
    && Merged(data, "departemen", e.departemen, r.departemen)
    && r.tanggalMasuk == lib.parseDate(StrArg(data, "tanggal_masuk").value).value
    && r.gaji == Numeric(data["gaji"]).value
    && Merged(data, "status", e.status, r.status)
    && MergedOptional(data, "alamat", e.alamat, r.alamat)
  }

  lemma MergeCarriesBody(lib: Library, e: Employee, data: map<string, Value>)
    requires ValidPayload(lib, data) && Merge(lib, e, data).Success?
    ensures CarriesBody(lib, data, e, Merge(lib, e, data).value)
  {
  }

  /** `createEmployee($data)`: validate, refuse a NIP or email already on
      file, map the body onto a new record and store it under the next id.
      `now` is the clock reading the constructor takes. */
  function CreateEmployee(lib: Library, s: Store, data: map<string, Value>, now: int): (r: Outcome<Employee>)
    ensures r.result.Failure? ==> r.store == s
    ensures !ValidPayload(lib, data) ==> r.result == Failure(Validate(lib, data).error)
    ensures ValidPayload(lib, data) && data["nip"].VStr? && NipTaken(s.rows, data["nip"].s) ==>
      r.result == Failure(InvalidArgument("NIP already exists"))
    ensures (ValidPayload(lib, data) && data["nip"].VStr? && !NipTaken(s.rows, data["nip"].s)
      && data["email"].VStr? && EmailTaken(s.rows, data["email"].s)) ==>
      r.result == Failure(InvalidArgument("Email already exists"))
    ensures r.result.Success? <==>
      && ValidPayload(lib, data) && StringTyped(data)
      && !NipTaken(s.rows, data["nip"].s) && !EmailTaken(s.rows, data["email"].s)
    ensures ValidPayload(lib, data) && !data["nip"].VStr? ==> r.result == Failure(TypeError)
    ensures (ValidPayload(lib, data) && data["nip"].VStr? && !NipTaken(s.rows, data["nip"].s)
      && !data["email"].VStr?) ==> r.result == Failure(TypeError)
    ensures (ValidPayload(lib, data) && data["nip"].VStr? && !NipTaken(s.rows, data["nip"].s)
      && data["email"].VStr? && !EmailTaken(s.rows, data["email"].s) && !StringTyped(data)) ==>
      r.result == Failure(TypeError)
    ensures r.result.Success? ==>
      && r.store == Store(s.rows + [r.result.value], s.nextId + 1)
      && r.result.value.id == Some(s.nextId)
      && r.result.value.createdAt == now && r.result.value.updatedAt == now
      && CarriesBody(lib, data, New(now), r.result.value)
    ensures StoreInvariant(s) ==> StoreInvariant(r.store)
  {
    match Validate(lib, data)
    case Fail(err) => Outcome(Failure(err), s)
    case Pass =>
      if !data["nip"].VStr? then Outcome(Failure(TypeError), s)
      else if FindByNip(s.rows, data["nip"].s).Some? then
        assert NipTaken(s.rows, data["nip"].s) by { assert FindByNip(s.rows, data["nip"].s).value in s.rows; }
        Outcome(Failure(InvalidArgument("NIP already exists")), s)
      else if !data["email"].VStr? then Outcome(Failure(TypeError), s)
      else if FindByEmail(s.rows, data["email"].s).Some? then
        assert EmailTaken(s.rows, data["email"].s) by { assert FindByEmail(s.rows, data["email"].s).value in s.rows; }
        Outcome(Failure(InvalidArgument("Email already exists")), s)
      else
        assert !NipTaken(s.rows, data["nip"].s) && !EmailTaken(s.rows, data["email"].s);
        SaveNew(lib, s, data, now)
  }

  /** The second half of `createEmployee`, once the body has passed
      validation and its NIP and email are free: map the body onto a new
      record and append it under the next id. */
  function SaveNew(lib: Library, s: Store, data: map<string, Value>, now: int): (r: Outcome<Employee>)
    requires ValidPayload(lib, data) && data["nip"].VStr? && data["email"].VStr?
    requires !NipTaken(s.rows, data["nip"].s) && !EmailTaken(s.rows, data["email"].s)
    ensures r.result.Failure? ==> r.store == s && r.result == Failure(TypeError)
    ensures r.result.Success? <==> StringTyped(data)
    ensures r.result.Success? ==>
      && r.store == Store(s.rows + [r.result.value], s.nextId + 1)
      && r.result.value.id == Some(s.nextId)
      && r.result.value.createdAt == now && r.result.value.updatedAt == now
      && CarriesBody(lib, data, New(now), r.result.value)
    ensures StoreInvariant(s) ==> StoreInvariant(r.store)
  {
    match Merge(lib, New(now), data)
    case Failure(err) => Outcome(Failure(err), s)
    case Success(e) =>
      var saved := e.(id := Some(s.nextId));
      var t := Store(s.rows + [saved], s.nextId + 1);
      assert StoreInvariant(s) ==> StoreInvariant(t) by {
        if StoreInvariant(s) {
          AppendKeepsInvariant(s, saved);
        }
      }
      Outcome(Success(saved), t)
  }

  /** Appending a record whose NIP and email are new, whose status is valid,
      under the next id keeps the store invariant. */
  lemma AppendKeepsInvariant(s: Store, e: Employee)
    requires StoreInvariant(s)
    requires e.id == Some(s.nextId) && ValidStatus(e.status)
    requires forall x :: x in s.rows ==> x.nip != e.nip && x.email != e.email
    ensures StoreInvariant(Store(s.rows + [e], s.nextId + 1))
  {
    var rows := s.rows + [e];
    forall i, j | 0 <= i < j < |rows|
      ensures rows[i].id != rows[j].id && rows[i].nip != rows[j].nip && rows[i].email != rows[j].email
    {
      if j == |s.rows| {
        assert rows[i] in s.rows;
      } else {
        assert rows[i] == s.rows[i] && rows[j] == s.rows[j];
      }
    }
  }

  /** A lookup by id is not disturbed by appending a row with another id. */
  lemma {:induction false} FindByIdAppend(rows: seq<Employee>, e: Employee, id: int)
    requires e.id != Some(id)
    ensures FindById(rows + [e], id) == FindById(rows, id)
  {
    if |rows| > 0 {
      assert (rows + [e])[1..] == rows[1..] + [e];
      FindByIdAppend(rows[1..], e, id);
    }
  }

  /** A created record can be read back under the id it was given, and the
      records under every other id are as they were. */
  lemma CreateThenGet(lib: Library, s: Store, data: map<string, Value>, now: int, id: int)
    requires StoreInvariant(s)
    requires CreateEmployee(lib, s, data, now).result.Success?
    ensures GetEmployeeById(CreateEmployee(lib, s, data, now).store, s.nextId)
      == Some(CreateEmployee(lib, s, data, now).result.value)
    ensures id != s.nextId ==>
      GetEmployeeById(CreateEmployee(lib, s, data, now).store, id) == GetEmployeeById(s, id)
  {
    var r := CreateEmployee(lib, s, data, now);
    FindByIdIsUnique(r.store, |s.rows|, s.nextId);
    if id != s.nextId {
      FindByIdAppend(s.rows, r.result.value, id);
    }
  }

  /** Submitting the same body twice creates one record: the second attempt
      is refused because the NIP is now on file. */
  lemma CreateTwiceFails(lib: Library, s: Store, data: map<string, Value>, now: int, later: int)
    requires CreateEmployee(lib, s, data, now).result.Success?
    ensures CreateEmployee(lib, CreateEmployee(lib, s, data, now).store, data, later).result
      == Failure(InvalidArgument("NIP already exists"))
  {
    var r := CreateEmployee(lib, s, data, now);
    assert r.result.value in r.store.rows;
  }

  // ---------------------------------------------------------------------
  // Update

  /** The conflict test of `updateEmployee`: the row the lookup by NIP
      returns belongs to another id. */
  predicate NipClash(rows: seq<Employee>, nip: string, id: int) {
    FindByNip(rows, nip).Some? && FindByNip(rows, nip).value.id != Some(id)
  }

  predicate EmailClash(rows: seq<Employee>, email: string, id: int) {
    FindByEmail(rows, email).Some? && FindByEmail(rows, email).value.id != Some(id)
  }

  /** With unique NIPs and emails, the conflict tests refuse exactly the
      values some other row already holds. */
  lemma ClashMeansOtherRow(s: Store, nip: string, email: string, id: int)
    requires StoreInvariant(s)
    ensures NipClash(s.rows, nip, id) <==> exists e :: e in s.rows && e.nip == nip && e.id != Some(id)
    ensures EmailClash(s.rows, email, id) <==> exists e :: e in s.rows && e.email == email && e.id != Some(id)
  {
    if e :| e in s.rows && e.nip == nip && e.id != Some(id) {
      var i :| 0 <= i < |s.rows| && s.rows[i] == e;
      FindByNipIsUnique(s.rows, i, nip);
    }
    if e :| e in s.rows && e.email == email && e.id != Some(id) {
      var i :| 0 <= i < |s.rows| && s.rows[i] == e;
      FindByEmailIsUnique(s.rows, i, email);
    }
  }

  /** Replacing a row by a record with the same id, a valid status, and a
      NIP and email no other row holds keeps the store invariant. */
  lemma ReplaceKeepsInvariant(s: Store, k: int, e: Employee)
    requires StoreInvariant(s) && 0 <= k < |s.rows|
    requires e.id == s.rows[k].id && ValidStatus(e.status)
    requires forall i :: 0 <= i < |s.rows| && i != k ==> s.rows[i].nip != e.nip && s.rows[i].email != e.email
    ensures StoreInvariant(Store(s.rows[k := e], s.nextId))
  {
  }

  /** `updateEmployee($id, $data)`: an unknown id yields `None` before any
      check; otherwise the body is validated as on create, a NIP or email
      held by another row is refused, the body is mapped onto the stored
      record, and the pre-update hook stamps it with `now`. */
  function UpdateEmployee(lib: Library, s: Store, id: int, data: map<string, Value>, now: int):
    (r: Outcome<Option<Employee>>)
    ensures r.result.Failure? ==> r.store == s
    ensures r.result == Success(None) <==> forall e :: e in s.rows ==> e.id != Some(id)
    ensures r.result == Success(None) ==> r.store == s
    ensures IndexOfId(s.rows, id).Some? ==> r == UpdateAt(lib, s, IndexOfId(s.rows, id).value, id, data, now)
    ensures StoreInvariant(s) ==> StoreInvariant(r.store)
  {
    match IndexOfId(s.rows, id)
    case None => Outcome(Success(None), s)
    case Some(k) => UpdateAt(lib, s, k, id, data, now)
  }

  /** The update of the row at position `k`, which holds `id`: validation,
      then the NIP and email conflict checks against the other rows, then
      the merge and the pre-update hook. The first refusal decides the
      error and leaves the store as it was. */
  function UpdateAt(lib: Library, s: Store, k: nat, id: int, data: map<string, Value>, now: int):
    (r: Outcome<Option<Employee>>)
    requires k < |s.rows| && s.rows[k].id == Some(id)
    ensures r.result.Failure? ==> r.store == s
    ensures r.result.Success? ==> r.result.value.Some?
    ensures !ValidPayload(lib, data) ==> r.result == Failure(Validate(lib, data).error)
    ensures (ValidPayload(lib, data) && data["nip"].VStr? && NipClash(s.rows, data["nip"].s, id)) ==>
      r.result == Failure(InvalidArgument("NIP already exists"))
    ensures (ValidPayload(lib, data) && data["nip"].VStr? && !NipClash(s.rows, data["nip"].s, id)
      && data["email"].VStr? && EmailClash(s.rows, data["email"].s, id)) ==>
      r.result == Failure(InvalidArgument("Email already exists"))
    ensures ValidPayload(lib, data) && !data["nip"].VStr? ==> r.result == Failure(TypeError)
    ensures (ValidPayload(lib, data) && data["nip"].VStr? && !NipClash(s.rows, data["nip"].s, id)
      && !data["email"].VStr?) ==> r.result == Failure(TypeError)
    ensures (ValidPayload(lib, data) && data["nip"].VStr? && !NipClash(s.rows, data["nip"].s, id)
      && data["email"].VStr? && !EmailClash(s.rows, data["email"].s, id) && !StringTyped(data)) ==>
      r.result == Failure(TypeError)
    ensures r.result.Success? <==>
      && ValidPayload(lib, data) && StringTyped(data)
      && !NipClash(s.rows, data["nip"].s, id) && !EmailClash(s.rows, data["email"].s, id)
    ensures r.result.Success? ==>
      var e := r.result.value.value;
      && r.store == Store(s.rows[k := e], s.nextId)
      && e.id == Some(id) && e.createdAt == s.rows[k].createdAt && e.updatedAt == now
      && CarriesBody(lib, data, s.rows[k], e)
    ensures StoreInvariant(s) ==> StoreInvariant(r.store)
  {
    match Validate(lib, data)
    case Fail(err) => Outcome(Failure(err), s)
    case Pass =>
      if !data["nip"].VStr? then Outcome(Failure(TypeError), s)
      else if NipClash(s.rows, data["nip"].s, id) then Outcome(Failure(InvalidArgument("NIP already exists")), s)
      else if !data["email"].VStr? then Outcome(Failure(TypeError), s)
      else if EmailClash(s.rows, data["email"].s, id) then Outcome(Failure(InvalidArgument("Email already exists")), s)
      else
        match Merge(lib, s.rows[k], data)
        case Failure(err) => Outcome(Failure(err), s)
        case Success(e) =>
          var saved := PreUpdate(e, now);
          var t := Store(s.rows[k := saved], s.nextId);
          assert StoreInvariant(s) ==> StoreInvariant(t) by {
            if StoreInvariant(s) {
              UpdateKeepsInvariant(s, k, id, saved);
            }
          }
          Outcome(Success(Some(saved)), t)
  }

  /** Writing back a record under its own id, with an allowed status and a
      NIP and email that no other row holds, keeps the table's constraints. */
  lemma UpdateKeepsInvariant(s: Store, k: int, id: int, saved: Employee)
    requires StoreInvariant(s) && 0 <= k < |s.rows| && s.rows[k].id == Some(id)
    requires saved.id == Some(id) && ValidStatus(saved.status)
    requires !NipClash(s.rows, saved.nip, id) && !EmailClash(s.rows, saved.email, id)
    ensures StoreInvariant(Store(s.rows[k := saved], s.nextId))
  {
    forall i | 0 <= i < |s.rows| && i != k
      ensures s.rows[i].nip != saved.nip && s.rows[i].email != saved.email
    {
      if s.rows[i].nip == saved.nip {
        FindByNipIsUnique(s.rows, i, saved.nip);
      }
      if s.rows[i].email == saved.email {
        FindByEmailIsUnique(s.rows, i, saved.email);
      }
    }
    ReplaceKeepsInvariant(s, k, saved);
  }

  /** After a successful update, reading the id back yields the updated
      record, and every other id reads as before. */
  lemma UpdateThenGet(lib: Library, s: Store, id: int, data: map<string, Value>, now: int, other: int)
    requires StoreInvariant(s)
    requires UpdateEmployee(lib, s, id, data, now).result.Success?
    requires UpdateEmployee(lib, s, id, data, now).result.value.Some?
    ensures GetEmployeeById(UpdateEmployee(lib, s, id, data, now).store, id)
      == UpdateEmployee(lib, s, id, data, now).result.value
    ensures other != id ==>
      GetEmployeeById(UpdateEmployee(lib, s, id, data, now).store, other) == GetEmployeeById(s, other)
  {
    var k := IndexOfId(s.rows, id).value;
    var u := UpdateAt(lib, s, k, id, data, now);
    ReplaceThenGet(s, k, u.result.value.value, other);
  }

  /** Replacing row `k` by a record with the same id, in a store whose ids
      stay unique, changes what that id reads and nothing else. */
  lemma ReplaceThenGet(s: Store, k: nat, e: Employee, other: int)
    requires k < |s.rows| && e.id == s.rows[k].id && e.id.Some?
    requires StoreInvariant(s) && StoreInvariant(Store(s.rows[k := e], s.nextId))
    ensures GetEmployeeById(Store(s.rows[k := e], s.nextId), e.id.value) == Some(e)
    ensures Some(other) != e.id ==>
      GetEmployeeById(Store(s.rows[k := e], s.nextId), other) == GetEmployeeById(s, other)
  {
    var t := Store(s.rows[k := e], s.nextId);
    FindByIdIsUnique(t, k, e.id.value);
    if Some(other) != e.id {
      if i :| 0 <= i < |s.rows| && s.rows[i].id == Some(other) {
        FindByIdIsUnique(s, i, other);
        FindByIdIsUnique(t, i, other);
      } else {
        forall x | x in t.rows ensures x.id != Some(other) {
          var i :| 0 <= i < |t.rows| && t.rows[i] == x;
          if i != k { assert x == s.rows[i]; }
        }
      }
    }
  }

  /** `updateEmployee` validates like `createEmployee`: a body that omits a
      required field is refused even when the stored record already has it,
      so a partial update is not possible. */
  lemma UpdateRequiresEveryField(lib: Library, s: Store, id: int, data: map<string, Value>, now: int)
    requires IndexOfId(s.rows, id).Some?
    requires FirstMissing(data, RequiredFields).Some?
    ensures UpdateEmployee(lib, s, id, data, now)
      == Outcome(Failure(InvalidArgument(RequiredMessage(FirstMissing(data, RequiredFields).value))), s)
  {
  }

  // ---------------------------------------------------------------------
  // Delete

  /** `deleteEmployee($id)`: `false` for an unknown id, otherwise the row is
      removed and the answer is `true`. */
  function DeleteEmployee(s: Store, id: int): (r: Outcome<bool>)
    ensures r.result.Success?
    ensures r.result.value <==> exists e :: e in s.rows && e.id == Some(id)
    ensures !r.result.value ==> r.store == s
    ensures r.result.value ==>
      var k := IndexOfId(s.rows, id).value;
      r.store == Store(s.rows[..k] + s.rows[k + 1..], s.nextId)
    ensures StoreInvariant(s) ==> StoreInvariant(r.store)
    ensures StoreInvariant(s) ==> forall e :: e in r.store.rows <==> e in s.rows && e.id != Some(id)
  {
    match IndexOfId(s.rows, id)
    case None => Outcome(Success(false), s)
    case Some(k) =>
      var t := Store(s.rows[..k] + s.rows[k + 1..], s.nextId);
      assert StoreInvariant(s) ==> StoreInvariant(t) && forall e :: e in t.rows <==> e in s.rows && e.id != Some(id) by {
        if StoreInvariant(s) { RemoveKeepsInvariant(s, k); }
      }
      Outcome(Success(true), t)
  }

  /** Removing the row at `k` keeps the invariant and leaves exactly the
      rows whose id differs from the removed one. */
  lemma RemoveKeepsInvariant(s: Store, k: int)
    requires StoreInvariant(s) && 0 <= k < |s.rows|
    ensures StoreInvariant(Store(s.rows[..k] + s.rows[k + 1..], s.nextId))
    ensures forall e :: e in s.rows[..k] + s.rows[k + 1..] <==> e in s.rows && e.id != s.rows[k].id
  {
    var t := s.rows[..k] + s.rows[k + 1..];
    RemoveShifts(s.rows, k, t);
    RemoveKeepsUnique(s, k, t);
    RemoveLeavesOthers(s, k, t);
  }

  lemma RemoveKeepsUnique(s: Store, k: int, t: seq<Employee>)
    requires StoreInvariant(s) && 0 <= k < |s.rows| && |t| == |s.rows| - 1
    requires forall i :: 0 <= i < k ==> t[i] == s.rows[i]
    requires forall i :: k <= i < |t| ==> t[i] == s.rows[i + 1]
    ensures StoreInvariant(Store(t, s.nextId))
  {
    forall i | 0 <= i < |t| ensures t[i] in s.rows {
      assert t[i] == s.rows[if i < k then i else i + 1];
    }
    forall i, j | 0 <= i < j < |t|
      ensures t[i].id != t[j].id && t[i].nip != t[j].nip && t[i].email != t[j].email
    {
      var i', j' := if i < k then i else i + 1, if j < k then j else j + 1;
      assert t[i] == s.rows[i'] && t[j] == s.rows[j'] && i' < j';
    }
  }

  lemma RemoveLeavesOthers(s: Store, k: int, t: seq<Employee>)
    requires StoreInvariant(s) && 0 <= k < |s.rows| && |t| == |s.rows| - 1
    requires forall i :: 0 <= i < k ==> t[i] == s.rows[i]
    requires forall i :: k <= i < |t| ==> t[i] == s.rows[i + 1]
    ensures forall e :: e in t <==> e in s.rows && e.id != s.rows[k].id
  {
    forall e | e in s.rows && e.id != s.rows[k].id ensures e in t {
      var i :| 0 <= i < |s.rows| && s.rows[i] == e;
      assert e == t[if i < k then i else i - 1];
    }
    forall e | e in t ensures e in s.rows && e.id != s.rows[k].id {
      var i :| 0 <= i < |t| && t[i] == e;
      var j := if i < k then i else i + 1;
      assert e == s.rows[j] && j != k;
    }
  }

  /** Removing position `k` shifts every later row down by one. */
  lemma RemoveShifts(rows: seq<Employee>, k: int, t: seq<Employee>)
    requires 0 <= k < |rows| && t == rows[..k] + rows[k + 1..]
    ensures |t| == |rows| - 1
    ensures forall i :: 0 <= i < k ==> t[i] == rows[i]
    ensures forall i :: k <= i < |t| ==> t[i] == rows[i + 1]
  {
  }

  /** A deleted record can no longer be read, and deleting it again
      answers `false`. */
  lemma DeleteThenGet(s: Store, id: int)
    requires StoreInvariant(s)
    ensures GetEmployeeById(DeleteEmployee(s, id).store, id).None?
    ensures DeleteEmployee(DeleteEmployee(s, id).store, id) == Outcome(Success(false), DeleteEmployee(s, id).store)
  {
  }
}
