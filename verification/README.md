# Employee management backend — Dafny model

This project models the core of a small employee-management REST backend, written in PHP on Slim 4 and Doctrine ORM. An employee record ("karyawan") carries:

- a unique NIP (employee number);
- full name (`nama_lengkap`);
- a unique email;
- phone (`no_telepon`);
- position (`jabatan`);
- department (`departemen`);
- start date (`tanggal_masuk`);
- salary (`gaji`);
- status: `aktif`, `non_aktif` or `cuti`;
- address (`alamat`);
- creation and update timestamps.

The model covers four layers:

- **Entity** (`entity.dfy`, module `EmployeeEntity`):
  - the record, and construction with the default status `aktif`;
  - the setters: only `setStatus` guards its value;
  - the pre-update hook that refreshes `updated_at`;
  - the JSON key mapping of `jsonSerialize`.
- **Repository** (`repository.dfy`, module `EmployeeRepository`):
  - the filter that `findAll` and `count` share: equality on department, status and position, plus a substring search over name, NIP and email;
  - newest-first ordering with limit and offset;
  - the single-row lookups;
  - the sorted distinct department and position lists;
  - the grouped statistics.
- **Service** (`service.dfy`, module `EmployeeService`):
  - pagination arithmetic;
  - the ordered validation of a request body;
  - the partial merge of a body into a record;
  - create, update and delete against a store of rows, with NIP and email uniqueness enforced;
  - delete and update report a missing id rather than failing.
- **Controller** (`controller.dfy`, module `EmployeeController`):
  - the pure part of the HTTP handlers: turning query parameters into page, limit and filters, with their defaults;
  - the status and message each outcome is answered with: 200, 201, 400, 404 and 500.

Supporting modules:

- `outcomes.dfy` (`Outcomes`) holds the result and error types.
- `text.dfy` (`Text`) holds substring containment and the byte-wise string order.
- `php_values.dfy` (`PhpValues`) holds the PHP value semantics the code relies on:
  - `empty()` and `isset`;
  - `is_numeric` with `(float)`;
  - the `(int)` cast of a query string;
  - PHP 8 loose comparison inside `in_array`.
- `seed.dfy` (`SeedData`) is the five-row sample data the migration inserts, and facts about it.

The database is a store value: the rows plus the next id to assign. Every operation returns the new store alongside its result.

The model relies on four conventions:

- **Errors.**
  - `InvalidArgument` stands for PHP's `InvalidArgumentException`, which the controllers catch as a validation error (400).
  - `Fault` stands for an `Error` (a `TypeError` under `strict_types`, or `DivisionByZeroError`). Those escape the handlers' `catch (\Exception)` and are answered by Slim's error middleware with a 500 error page (`backend/public/index.php:25-29`).
- **Library calls as parameters.** The email filter (`filter_var`), date parsing (`DateTime::createFromFormat('Y-m-d')`) and the message of the database layer's refusal of a negative limit or offset are passed in as a `Library` value. The clock reading is passed in as `now`.
- **Integer width.** PHP integers are 64-bit, and arithmetic that leaves that range yields a float. The model follows this only for the listing offset `($page - 1) * $limit`: an offset that is no longer an integer reaches the strictly typed `findAll(int $limit, int $offset, ...)` and raises a `TypeError`.
- **Lookups.** `findOneBy` returns the first matching row.
- **Merge.** Every string setter is strictly typed, so a non-string value under a string key ends in a `TypeError`. Any result that no `TypeError` spoils carries every set body key.

Where the written description of the system and the code disagree, the model follows the code:

- **Update** re-validates every required field, exactly like create. It is not a partial update.
- **Sort parameters.** `sort_field` and `sort_order` are copied into the filters but never read. The order is always `created_at` descending.
- **Limit.** There is no guard on `limit`: `limit=0` divides by zero while computing the page count and ends as a 500 error page.
- **Page.** `page` is not clamped. A negative limit, or a page below 1 (page 0, or a non-numeric page, which casts to 0) with a positive limit, makes the query's limit or offset negative. The database layer refuses such a query, and the reply is 500 "Failed to retrieve employees".
- **Salary.**
  - A salary of `0` or `"0"` is reported as a missing field, because `empty("0")` holds.
  - `"0.0"` passes, since the check is `< 0`, even though the message says "positive".

## Model

| member | source | states |
|---|---|---|
| Text.Contains | backend/src/Repository/EmployeeRepository.php:42-45 | the LIKE '%search%' test holds exactly when the search text occurs at some position of the column |
| PhpValues.NumericString | backend/src/Service/EmployeeService.php:144 | a string accepted as numeric contains a digit, and a negative reading starts with a minus sign |
| PhpValues.UnsignedWhole | backend/src/Service/EmployeeService.php:144 | a non-empty digit string is an unsigned literal worth its digits' value |
| PhpValues.UnsignedFraction | backend/src/Service/EmployeeService.php:144 | digits, a '.' and fraction digits, with a digit somewhere, are worth the whole part plus the fraction over 10 to the fraction's length |
| PhpValues.SignedDecimal | backend/src/Service/EmployeeService.php:144 | an unsigned literal is numeric alone and under a '+' with its value, and under a '-' with the negated value |
| PhpValues.NumericStringValue | backend/src/Service/EmployeeService.php:144 | `is_numeric` accepts d, "+d", "-d", "d.e" and "-d.e" for digit strings d and e, and `(float)` reads them as d's value, its negation, and d plus e over 10 to e's length |
| PhpValues.NumericIsLiteral | backend/src/Service/EmployeeService.php:144 | every string `is_numeric` accepts is a sign or none followed by digits, or by digits, a '.' and digits: "12abc", "1.2.3" and "1-" are refused |
| PhpValues.LiteralIsNumeric | backend/src/Service/EmployeeService.php:144 | every optionally signed decimal literal is accepted by `is_numeric` |
| PhpValues.NumericExactlyLiterals | backend/src/Service/EmployeeService.php:144 | `is_numeric` accepts a string exactly when it is an optionally signed decimal literal |
| PhpValues.Numeric | backend/src/Service/EmployeeService.php:144 | integers and floats are numeric with their own value; null and booleans are not numeric |
| PhpValues.IntCast | backend/src/Controller/EmployeeController.php:29-30 | `(int)` of a digit string is its decimal value; a string not starting with a digit or sign casts to 0 |
| PhpValues.SignedCast | backend/src/Controller/EmployeeController.php:29-30 | `(int)` under a '+' reads the digits that follow the sign, under a '-' their negation, and without a sign the leading digits |
| PhpValues.IntCastPrefix | backend/src/Controller/EmployeeController.php:29-30 | `(int)` of digits d followed by anything not starting with a digit is d's value, and under a '-' its negation (so "12abc" casts to 12 and "-7x" to -7) |
| PhpValues.DigitsValueBound | backend/src/Controller/EmployeeController.php:29-30 | the value of n digits is below 10^n and is 0 exactly when every digit is '0' |
| EmployeeEntity.New | backend/src/Entity/Employee.php:19-61 | a fresh record has no id, status `aktif` (an allowed status), no phone or address, and both timestamps at the construction time |
| EmployeeEntity.PreUpdate | backend/src/Entity/Employee.php:63-67 | the hook sets `updated_at` to now and changes no other field, `created_at` included |
| EmployeeEntity.SetNip | backend/src/Entity/Employee.php:136-140 | the NIP takes the new value and every other field is unchanged |
| EmployeeEntity.SetNamaLengkap | backend/src/Entity/Employee.php:142-146 | the full name takes the new value and every other field is unchanged |
| EmployeeEntity.SetEmail | backend/src/Entity/Employee.php:148-152 | the email takes the new value and every other field is unchanged |
| EmployeeEntity.SetNoTelepon | backend/src/Entity/Employee.php:154-158 | the phone takes the new (nullable) value and every other field is unchanged |
| EmployeeEntity.SetJabatan | backend/src/Entity/Employee.php:160-164 | the position takes the new value and every other field is unchanged |
| EmployeeEntity.SetDepartemen | backend/src/Entity/Employee.php:166-170 | the department takes the new value and every other field is unchanged |
| EmployeeEntity.SetTanggalMasuk | backend/src/Entity/Employee.php:172-176 | the start date takes the new value and every other field is unchanged |
| EmployeeEntity.SetGaji | backend/src/Entity/Employee.php:178-182 | the salary takes the new value and every other field is unchanged |
| EmployeeEntity.SetStatus | backend/src/Entity/Employee.php:184-191 | the setter succeeds exactly for the three allowed statuses and changes only the status; otherwise it fails with "Invalid status value" |
| EmployeeEntity.SetAlamat | backend/src/Entity/Employee.php:193-197 | the address takes the new (nullable) value and every other field is unchanged |
| EmployeeEntity.Serialize | backend/src/Entity/Employee.php:199-216 | the thirteen snake_case keys come out in the source's order, and looking up any emitted key returns the member emitted under it |
| EmployeeEntity.SerializeIdentity | backend/src/Entity/Employee.php:199-216 | reading back id, nip, nama_lengkap, email, no_telepon and alamat yields the record's values, with null for a missing id, phone or address |
| EmployeeEntity.SerializeEmployment | backend/src/Entity/Employee.php:199-216 | reading back jabatan, departemen, tanggal_masuk, gaji, status, created_at and updated_at yields the record's values, with the dates formatted |
| EmployeeEntity.JsonKeysDistinct | backend/src/Entity/Employee.php:199-216 | no key is emitted twice, so each key determines one field |
| EmployeeEntity.LookupFindsEachMember | backend/src/Entity/Employee.php:199-216 | with distinct keys, looking up a member's key returns that member's value |
| EmployeeRepository.OnlyQueryKeysMatter | backend/src/Repository/EmployeeRepository.php:27-45 | filter keys other than departemen, status, jabatan and search cannot change which rows match |
| EmployeeRepository.NoFilterMatchesEverything | backend/src/Repository/EmployeeRepository.php:27-45 | when no filter is set to a non-empty value, every row matches |
| EmployeeRepository.Select | backend/src/Repository/EmployeeRepository.php:27-45 | the filtered rows hold each matching row as often as the table does, and no non-matching row |
| EmployeeRepository.CountIsNumberOfMatches | backend/src/Repository/EmployeeRepository.php:54-81 | `count` with the same filters equals the number of rows the query selects |
| EmployeeRepository.SelectAgrees | backend/src/Repository/EmployeeRepository.php:27-45 | filters that match the same rows select and count the same rows |
| EmployeeRepository.CountWithoutFilters | backend/src/Repository/EmployeeRepository.php:54-81 | without active filters the count is the size of the table |
| EmployeeRepository.CountAppend | backend/src/Repository/EmployeeRepository.php:54-81 | counting over two row lists joined is the sum of counting each |
| EmployeeRepository.Insert | backend/src/Repository/EmployeeRepository.php:47 | adding one row to a newest-first list keeps it newest-first and adds exactly that row |
| EmployeeRepository.PrependKeepsOrder | backend/src/Repository/EmployeeRepository.php:47 | a row no older than the head of a newest-first list can go in front of it |
| EmployeeRepository.SortNewestFirst | backend/src/Repository/EmployeeRepository.php:47 | ORDER BY created_at DESC yields a permutation of its input ordered by non-increasing creation time |
| EmployeeRepository.Window | backend/src/Repository/EmployeeRepository.php:48-49 | LIMIT/OFFSET returns the min(limit, remaining) consecutive rows from position offset, and none past the end |
| EmployeeRepository.FindAll | backend/src/Repository/EmployeeRepository.php:22-52 | findAll fails exactly when the limit or offset is negative, with the database layer's exception; otherwise it returns at most limit rows, newest first, all stored and matching, as many as remain after the offset |
| EmployeeRepository.MatchingWindow | backend/src/Repository/EmployeeRepository.php:47-49 | a limit/offset window of the sorted matches holds what remains of the count after the offset, newest first, and only stored, matching rows |
| EmployeeRepository.SortedSelectionSize | backend/src/Repository/EmployeeRepository.php:22-81 | ordering the selected rows keeps their number, which is what `count` reports for the same filters |
| EmployeeRepository.WindowLength | backend/src/Repository/EmployeeRepository.php:48-49 | a window holds the rows remaining after the offset, capped at limit |
| EmployeeRepository.WindowKeepsOrder | backend/src/Repository/EmployeeRepository.php:47-49 | cutting a page out of an ordered list keeps it ordered |
| EmployeeRepository.SelectedRowsMatch | backend/src/Repository/EmployeeRepository.php:27-45 | any rearrangement of the selection contains only stored, matching rows |
| EmployeeRepository.FindAllEverything | backend/src/Repository/EmployeeRepository.php:22-52 | with a limit covering the table and offset 0, findAll succeeds with exactly the matching rows, each as often as stored |
| EmployeeRepository.NewestFirstIsUnique | backend/src/Repository/EmployeeRepository.php:49 | when no two different rows share a created_at, there is only one newest-first arrangement of a set of rows |
| EmployeeRepository.SameHead | backend/src/Repository/EmployeeRepository.php:49 | two newest-first arrangements of the same rows without ties start with the same row |
| EmployeeRepository.NewestIsFirst | backend/src/Repository/EmployeeRepository.php:49 | the first row of a newest-first list is at least as new as any of its rows |
| EmployeeRepository.First | backend/src/Repository/EmployeeRepository.php:83-96 | findOneBy returns a stored row satisfying the criterion, and null exactly when none does |
| EmployeeRepository.FindById | backend/src/Repository/EmployeeRepository.php:83-86 | a found row has the requested id; null exactly when no row has it |
| EmployeeRepository.FindByNip | backend/src/Repository/EmployeeRepository.php:88-91 | a found row has the requested NIP; null exactly when no row has it |
| EmployeeRepository.FindByEmail | backend/src/Repository/EmployeeRepository.php:93-96 | a found row has the requested email; null exactly when no row has it |
| EmployeeRepository.InsertDistinct | backend/src/Repository/EmployeeRepository.php:110-117 | adding a value to a strictly ascending list keeps it strictly ascending, with exactly the old values and the new one |
| EmployeeRepository.DistinctAscending | backend/src/Repository/EmployeeRepository.php:110-117 | SELECT DISTINCT … ORDER BY ascending yields a strictly ascending list holding exactly the input's values |
| EmployeeRepository.AscendingHasNoDuplicates | backend/src/Repository/EmployeeRepository.php:110-117 | a strictly ascending list contains no value twice |
| EmployeeRepository.DepartmentsOfRows | backend/src/Repository/EmployeeRepository.php:110-117 | the department column of the rows holds a name exactly when some row has that department |
| EmployeeRepository.PositionsOfRows | backend/src/Repository/EmployeeRepository.php:119-126 | the position column of the rows holds a name exactly when some row has that position |
| EmployeeRepository.GetDepartments | backend/src/Repository/EmployeeRepository.php:110-117 | the department list is sorted, duplicate-free, and lists a name exactly when some employee works in it |
| EmployeeRepository.GetPositions | backend/src/Repository/EmployeeRepository.php:119-126 | the position list is sorted, duplicate-free, and lists a name exactly when some employee holds it |
| EmployeeRepository.BumpSum | backend/src/Repository/EmployeeRepository.php:138-149 | counting one more value raises the grouped total by one |
| EmployeeRepository.BumpCount | backend/src/Repository/EmployeeRepository.php:138-149 | counting one more value raises that value's group by one and leaves other groups alone |
| EmployeeRepository.BumpKeys | backend/src/Repository/EmployeeRepository.php:138-149 | counting one more value keeps group keys distinct and counts positive, adding only that key |
| EmployeeRepository.OccurrencesCons | backend/src/Repository/EmployeeRepository.php:138-149 | counting occurrences in a list split as head and tail adds the head's contribution |
| EmployeeRepository.GroupCounts | backend/src/Repository/EmployeeRepository.php:138-149 | GROUP BY … COUNT(*) gives one positive group per distinct value, each holding the number of occurrences, and the groups sum to the row count |
| EmployeeRepository.GetStatistics | backend/src/Repository/EmployeeRepository.php:128-156 | the total is the number of employees; both groupings sum to it, have distinct keys and positive counts, and count each status or department by its occurrences |
| EmployeeRepository.DepartmentOccurrences | backend/src/Repository/EmployeeRepository.php:54-81 | counting with a department filter equals the number of employees in that department |
| EmployeeRepository.DepartmentCountAgrees | backend/src/Repository/EmployeeRepository.php:145-149 | count filtered by a department agrees with that department's entry in the statistics |
| EmployeeService.CeilDiv | backend/src/Service/EmployeeService.php:33 | total_pages is the least page count whose pages hold all matching rows |
| EmployeeService.BeforeLastPage | backend/src/Service/EmployeeService.php:34 | a page comes before the last page exactly when rows remain after it |
| EmployeeService.OffsetPositive | backend/src/Service/EmployeeService.php:35 | the offset is positive exactly on pages after the first |
| EmployeeService.Paginate | backend/src/Service/EmployeeService.php:23-36 | the pagination block echoes page, limit and total; total_pages covers the total tightly; has_next holds exactly when rows remain after this page; has_prev holds exactly when the offset is positive |
| EmployeeService.GetAllEmployees | backend/src/Service/EmployeeService.php:21-38 | a listing succeeds exactly when the offset stays a 64-bit integer, the limit is positive and the offset is not negative; an overflowing offset is a TypeError, a negative limit or offset the database layer's exception, a zero limit a division by zero; a listing holds at most limit stored, matching rows, newest first, with pagination over the filtered count, and is non-empty exactly on pages up to the last |
| EmployeeService.PageHasRows | backend/src/Service/EmployeeService.php:23-34 | the rows left after a page's offset are non-empty exactly when the page is not past total_pages |
| EmployeeService.PageIsWindow | backend/src/Service/EmployeeService.php:23-26 | for a positive limit and a page p from 1 whose offset is a 64-bit integer, page p of the listing is the window of the filtered, newest-first rows starting (p - 1) * limit rows in |
| EmployeeService.WindowsTile | backend/src/Repository/EmployeeRepository.php:48-49 | consecutive windows of size limit, up to a last page that covers the list, join to the list's suffix from the first offset |
| EmployeeService.JoinedIsWindows | backend/src/Service/EmployeeService.php:23-24 | pages each served from the same order are that order's consecutive windows |
| EmployeeService.PagesCoverMatches | backend/src/Service/EmployeeService.php:21-38 | when no two matching rows share a created_at, pages 1 to total_pages, each served by its own query in any newest-first order of the matches, join to every matching row exactly once, newest first |
| EmployeeService.TiedRowsCanRepeat | backend/src/Repository/EmployeeRepository.php:49 | two rows with the same created_at, one per page, may be served in opposite orders by the two queries, so one row appears twice and the other never |
| EmployeeService.FirstMissing | backend/src/Service/EmployeeService.php:125-131 | the reported field is the first required field in list order that is not filled; none is reported exactly when all are filled |
| EmployeeService.StatusAcceptedValues | backend/src/Service/EmployeeService.php:139 | the loose in_array accepts exactly the three status names and boolean true |
| EmployeeService.Validate | backend/src/Service/EmployeeService.php:123-152 | a body passes exactly when it meets every check; otherwise the first failing check decides the error: missing field, email, status, salary, then date (a non-string date is a TypeError) |
| EmployeeService.ZeroSalaryIsMissing | backend/src/Service/EmployeeService.php:127-131 | a salary of 0 or "0" is reported as the missing field gaji |
| EmployeeService.ZeroPointZeroSalaryPasses | backend/src/Service/EmployeeService.php:144 | the salary "0.0" counts as filled and passes the salary check, despite the "positive" wording |
| EmployeeService.SetString | backend/src/Service/EmployeeService.php:156-170 | a set key is applied through its setter; a non-string value fails with TypeError; an unset key changes nothing |
| EmployeeService.SetOptional | backend/src/Service/EmployeeService.php:168-194 | a nullable string field is applied when its key is set; a non-string value fails with TypeError |
| EmployeeService.SetStatusField | backend/src/Service/EmployeeService.php:188-190 | a validated status is applied through the guarded setter, so an allowed status stays allowed; a non-string value fails with TypeError |
| EmployeeService.MergeContact | backend/src/Service/EmployeeService.php:156-170 | NIP, name, email and phone take the body's values where set; the other fields are untouched |
| EmployeeService.MergePosition | backend/src/Service/EmployeeService.php:172-178 | position and department take the body's values where set; the other fields are untouched |
| EmployeeService.MergeStatusAddress | backend/src/Service/EmployeeService.php:188-194 | status and address take the body's values where set, and the status stays allowed; the other fields are untouched |
| EmployeeService.Merge | backend/src/Service/EmployeeService.php:154-195 | on a validated body the merge succeeds exactly when every set string key holds a string; each set key overrides its field, the date and salary are parsed from the body, and id and timestamps are kept |
| EmployeeService.MergeCarriesBody | backend/src/Service/EmployeeService.php:154-195 | a successful merge carries the body's value in every field it sets and the old value elsewhere |
| EmployeeService.IndexOfId | backend/src/Repository/EmployeeRepository.php:83-86 | the position found holds the id; none is found exactly when no row has it |
| EmployeeService.GetEmployeeById | backend/src/Service/EmployeeService.php:40-43 | a found employee is stored with that id; null exactly when no row has it |
| EmployeeService.FindByIdIsUnique | backend/src/Repository/EmployeeRepository.php:83-86 | with unique ids, lookup by a stored row's id returns that very row |
| EmployeeService.FindByNipIsUnique | backend/src/Repository/EmployeeRepository.php:88-91 | with unique NIPs, lookup by a stored row's NIP returns that very row |
| EmployeeService.FindByEmailIsUnique | backend/src/Repository/EmployeeRepository.php:93-96 | with unique emails, lookup by a stored row's email returns that very row |
| EmployeeService.CreateEmployee | backend/src/Service/EmployeeService.php:45-64 | create succeeds exactly for a valid, string-typed body whose NIP and email are unused; the errors come in source order; success appends one row with the next id, both timestamps now, and the body's fields; failure leaves the store unchanged; the table constraints are preserved |
| EmployeeService.SaveNew | backend/src/Service/EmployeeService.php:58-63 | once validation and the uniqueness checks have passed, create succeeds exactly when every set string key holds a string (otherwise TypeError, store unchanged); success appends the record under the next id with both timestamps now and the body's fields, keeping the constraints |
| EmployeeService.AppendKeepsInvariant | backend/src/Service/EmployeeService.php:58-61 | appending a row with a fresh id, an allowed status, and an unused NIP and email keeps the table's constraints |
| EmployeeService.FindByIdAppend | backend/src/Service/EmployeeService.php:58-61 | appending a row with a different id does not change a lookup by id |
| EmployeeService.CreateThenGet | backend/src/Service/EmployeeService.php:45-64 | after a create, the new id finds the created record and every other id finds what it found before |
| EmployeeService.CreateTwiceFails | backend/src/Service/EmployeeService.php:50-52 | repeating a successful create with the same body is refused with "NIP already exists" |
| EmployeeService.ClashMeansOtherRow | backend/src/Service/EmployeeService.php:76-88 | with unique NIPs and emails, update refuses a NIP or email exactly when another employee already holds it |
| EmployeeService.ReplaceKeepsInvariant | backend/src/Service/EmployeeService.php:90-92 | replacing a row by one with the same id, an allowed status, and a NIP and email unused elsewhere keeps the table's constraints |
| EmployeeService.UpdateEmployee | backend/src/Service/EmployeeService.php:66-95 | update reports "not found" (null) exactly when no row has the id, and then changes nothing; otherwise it is the update of the row holding the id; failure leaves the store unchanged; the constraints are preserved |
| EmployeeService.UpdateAt | backend/src/Service/EmployeeService.php:73-94 | updating a found row succeeds exactly for a valid, string-typed body whose NIP and email no other row holds; the errors come in source order (validation, NIP, email, type); success replaces that row in place, keeping id and created_at and setting updated_at to now; failure leaves the store unchanged; the constraints are preserved |
| EmployeeService.UpdateKeepsInvariant | backend/src/Service/EmployeeService.php:76-92 | putting back a row under its own id, with an allowed status and a NIP and email no other row holds, keeps the table's constraints |
| EmployeeService.UpdateThenGet | backend/src/Service/EmployeeService.php:66-95 | after an update, the id finds the updated record and every other id finds what it found before |
| EmployeeService.ReplaceThenGet | backend/src/Service/EmployeeService.php:90-94 | replacing a row by a record with the same id makes that id find the new record and leaves every other id's lookup as before |
| EmployeeService.UpdateRequiresEveryField | backend/src/Service/EmployeeService.php:73 | an update whose body omits a required field is refused with that field's message, and the store is unchanged |
| EmployeeService.DeleteEmployee | backend/src/Service/EmployeeService.php:97-106 | delete reports true exactly when a row had the id, removes just that row and keeps the rest in order; the constraints are preserved |
| EmployeeService.RemoveKeepsInvariant | backend/src/Service/EmployeeService.php:104 | removing a row keeps the constraints and leaves exactly the rows with other ids |
| EmployeeService.RemoveKeepsUnique | backend/src/Service/EmployeeService.php:104 | closing the gap left by one removed row keeps ids, NIPs and emails unique and statuses allowed |
| EmployeeService.RemoveLeavesOthers | backend/src/Service/EmployeeService.php:104 | after closing the gap, the remaining rows are exactly the stored rows with a different id |
| EmployeeService.DeleteThenGet | backend/src/Service/EmployeeService.php:97-106 | after a delete the id is no longer found, and deleting it again reports false without change |
| EmployeeController.CopyNonEmpty | backend/src/Controller/EmployeeController.php:32-50 | a query parameter becomes a filter exactly when it is one of the copied keys and not empty(), and keeps its value |
| EmployeeController.ParseIndexQuery | backend/src/Controller/EmployeeController.php:27-50 | page defaults to 1 and limit to 50, each digit string is read as its decimal value, and the filters are exactly the non-empty filter parameters |
| EmployeeController.IndexDefaults | backend/src/Controller/EmployeeController.php:29-30 | an empty query asks for page 1 with 50 rows and no filters |
| EmployeeController.FailureReply | backend/src/Controller/EmployeeController.php:141-161 | an InvalidArgumentException caught by a validating handler is a 400 "Validation error" with its message; any other exception is a 500 with the handler's message; an Error reaches the error middleware as a 500 error page |
| EmployeeController.ListingReply | backend/src/Controller/EmployeeController.php:52-74 | a listing is answered 200 with the data and pagination; a failed one with 500 |
| EmployeeController.Index | backend/src/Controller/EmployeeController.php:24-75 | GET /employees answers 200 exactly when the service lists the parsed page and limit, with at most limit stored, matching rows and pagination over the filtered count; limit 0 or an overflowing offset gives a 500 error page; a negative limit or offset (page 0, a non-numeric page, limit -5) gives 500 "Failed to retrieve employees" with the database layer's message |
| EmployeeController.ListPage | backend/src/Controller/EmployeeController.php:52-74 | the reply to a parsed page, limit and filters: 200 exactly when the service lists them, with the listing; the error page for an Error (limit 0, an overflowing offset); 500 "Failed to retrieve employees" with the database layer's message for a negative limit or offset |
| EmployeeController.FiltersAgree | backend/src/Controller/EmployeeController.php:32-52 | filters that agree on the four query keys match the same rows |
| EmployeeController.DropSortParameters | backend/src/Controller/EmployeeController.php:45-50 | removing sort_field and sort_order from the query changes neither page, limit nor any filter the query reads |
| EmployeeController.ListingAgrees | backend/src/Controller/EmployeeController.php:52 | filters that match the same rows give the same listing |
| EmployeeController.IndexAgrees | backend/src/Controller/EmployeeController.php:24-75 | queries with the same page, limit and filter values get the same response |
| EmployeeController.SortParametersIgnored | backend/src/Controller/EmployeeController.php:45-52 | sort_field and sort_order have no effect on the response to GET /employees |
| EmployeeController.Show | backend/src/Controller/EmployeeController.php:77-113 | GET /employees/{id} answers 404 "Employee not found" exactly when no row has the cast id, and 200 with that employee otherwise |
| EmployeeController.StoreEmployee | backend/src/Controller/EmployeeController.php:115-163 | POST answers 400 for an absent or empty body, 201 with the new record exactly when the create succeeds, and 400 with the message for a validation or uniqueness refusal; any other failure is answered as `FailureReply` says: a `TypeError` gets the 500 error page, any other exception 500 "Failed to create employee"; only a 201 changes the store |
| EmployeeController.Update | backend/src/Controller/EmployeeController.php:165-223 | PUT answers 400 for an absent or empty body, 404 exactly when no row has the id, 200 exactly when the update succeeds, and 400 with the message for a refusal; any other failure is answered as `FailureReply` says: a `TypeError` gets the 500 error page, any other exception 500 "Failed to update employee"; only a 200 changes the store |
| EmployeeController.Destroy | backend/src/Controller/EmployeeController.php:225-260 | DELETE answers 404 exactly when no row has the id, and 200 "Employee deleted successfully" after removing it otherwise |
| EmployeeController.StoreThenShow | backend/src/Controller/EmployeeController.php:115-163 | after a 201, GET on the new id returns the record the POST returned, for a salary stored exactly (the column rounds to two decimals; see Left out) |
| EmployeeController.DestroyThenShow | backend/src/Controller/EmployeeController.php:225-260 | after DELETE, GET and a second DELETE on the same id both answer 404 |
| SeedData.SeedKeepsInvariant | backend/migrations/Version202506150000000.php:39-45 | the five sample rows have distinct ids, NIPs and emails and allowed statuses |
| SeedData.SeedStatistics | backend/migrations/Version202506150000000.php:39-45 | the sample data has 5 employees, 2 in IT, 1 on leave (cuti) and 4 active |
| SeedData.SeedDepartmentIT | backend/migrations/Version202506150000000.php:39-45 | filtering the sample data on department IT counts 2 rows |
| SeedData.SeedRefusesTakenNip | backend/migrations/Version202506150000000.php:39-45 | creating a valid employee with sample NIP EMP003 is refused with "NIP already exists" and changes nothing |

## Left out

- HTTP plumbing is not modelled: routing, the PSR-7 request and response objects, headers, CORS, JSON encoding and decoding, and logging. A parsed body is a map of scalar values (nested arrays are not modelled), and a query is a map of strings.
- The clock, the email validator (`filter_var`) and date parsing are parameters, because they are library calls whose behaviour sits outside this code.
- The database is a list of rows. MySQL's collation is not modelled: comparisons are exact and case-sensitive, the search is a plain substring test, and `%`/`_` in the search text are not treated as wildcards. Column lengths are not modelled either.
- Database failures are not modelled, apart from the refusal of a negative limit or offset: a failed `flush` or other failed query would be a `RuntimeFailure`, and the model produces one only for that refusal.
- Salaries are real numbers, because floating-point rounding is not modelled.
- EmployeeController.StoreThenShow: the `gaji` column is DECIMAL(15,2), so the database rounds a salary to two places when it stores it. A `show` in a later request re-reads the rounded value, which differs from the 201 reply when the posted salary has more than two decimals (for example `"1000.555"`). The model stores the exact number, so the lemma's round trip holds only for salaries with at most two decimals. Within one request the ORM returns the unrounded object, so `CreateThenGet` and `UpdateThenGet` are unaffected.
- PhpValues.NumericString: accepts exactly the optionally signed decimals (`NumericExactlyLiterals`). `is_numeric`'s exponent forms (`"1e3"`) and its leading and trailing whitespace are not modelled, so those strings are refused here.
- PhpValues.IntCast: reads the leading optionally signed digits. Leading whitespace, exponent forms and 64-bit overflow are not modelled: PHP saturates a cast beyond 64 bits at `PHP_INT_MAX`, while the model passes the full value on, so a page or limit with more than 19 digits can end in a TypeError where PHP would list an empty page.
- EmployeeRepository.FindAll: a negative limit or offset is refused with an exception whose message is the `refuseWindow` field of the `Library`. Which layer raises it (Doctrine's offset check, or MySQL rejecting `LIMIT -5`) and its exact text are not modelled. A database layer that accepted a negative limit or offset and returned rows is not modelled either.
- EmployeeRepository.SortNewestFirst: rows with equal `created_at` come out in some order, and the contract does not fix it. MySQL does not fix it either. A listing page is the window of this one order.
- EmployeeService.PagesCoverMatches: promises that paging covers every match exactly once only when no two matching rows share a `created_at`. With ties, each page's query may break them differently and the pages can repeat or skip rows (`TiedRowsCanRepeat`). The sample rows all share one `created_at`.
- EmployeeRepository.GroupCounts: the groups come in first-appearance order. Without ORDER BY, MySQL's group order is unspecified, and the contracts do not depend on it.
- EmployeeEntity.New: the PHP constructor leaves the required properties uninitialised. The model fills them with placeholders that the create path always overwrites, so a read of an uninitialised property is not modelled.
- The `deleted_at` column of a later migration is not modelled, because the entity does not map it.
- The service pass-throughs `getDepartments`, `getPositions` and `getStatistics` (`backend/src/Service/EmployeeService.php:108-121`) are modelled through the repository functions they return. The controller actions that would expose them are not routed, so they are not modelled.
- `persist`/`flush`/`remove` are folded into the store update of each operation, because they have no behaviour of their own in this code.
- The frontend, the migrations' schema DDL and the configuration files are not part of this model.
