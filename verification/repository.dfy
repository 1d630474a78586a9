/** The query semantics of `EmployeeRepository`, as pure functions over the
    sequence of stored rows: the filter predicate shared by `findAll` and
    `count`, the `createdAt DESC` order with limit/offset slicing, the
    single-row lookups, the distinct sorted department and position lists,
    and the grouped counts of `getStatistics`. */
module EmployeeRepository {
  import opened Outcomes
  import opened Text
  import opened PhpValues
  import opened EmployeeEntity

  /** The filter array handed down from the controller: key to query value. */
  type Filters = map<string, string>

  /** `!empty($filters[k])`: the filter key takes part in the query. */
  predicate Active(f: Filters, k: string) {
    k in f && !EmptyString(f[k])
  }

  /** The WHERE clause `findAll` and `count` both build: an equality test for
      each active `departemen`, `status` and `jabatan` filter, and for an
      active `search` a substring test against the full name, the NIP or the
      email. All parts are AND-combined. */
  predicate Matches(e: Employee, f: Filters) {
    && (Active(f, "departemen") ==> e.departemen == f["departemen"])
    && (Active(f, "status") ==> e.status == f["status"])
    && (Active(f, "jabatan") ==> e.jabatan == f["jabatan"])
    && (Active(f, "search") ==>
          Contains(e.namaLengkap, f["search"]) || Contains(e.nip, f["search"]) || Contains(e.email, f["search"]))
  }

  /** The filter keys the WHERE clause reads; any other key is ignored. */
  const QueryKeys: set<string> := {"departemen", "status", "jabatan", "search"}

  /** Keys the WHERE clause does not read, `sort_field` and `sort_order`
      among them, have no effect on which rows match. */
  lemma OnlyQueryKeysMatter(e: Employee, f: Filters, g: Filters)
    requires forall k :: k in QueryKeys ==> (k in f <==> k in g) && (k in f ==> f[k] == g[k])
    ensures Matches(e, f) <==> Matches(e, g)
  {
    assert "departemen" in QueryKeys && "status" in QueryKeys;
    assert "jabatan" in QueryKeys && "search" in QueryKeys;
  }

  /** Without an active filter every row matches. */
  lemma NoFilterMatchesEverything(e: Employee, f: Filters)
    requires forall k :: k in QueryKeys ==> !Active(f, k)
    ensures Matches(e, f)
  {
    assert "departemen" in QueryKeys && "status" in QueryKeys;
    assert "jabatan" in QueryKeys && "search" in QueryKeys;
  }

  /** The matching rows in store order. */
  function Select(rows: seq<Employee>, f: Filters): (r: seq<Employee>)
    ensures |r| <= |rows|
    ensures forall e :: multiset(r)[e] == if Matches(e, f) then multiset(rows)[e] else 0
  {
    if |rows| == 0 then []
    else
      assert rows == [rows[0]] + rows[1..];
      (if Matches(rows[0], f) then [rows[0]] else []) + Select(rows[1..], f)
  }

  /** `count($filters)`: `COUNT(e.id)` under the same WHERE clause, one per
      matching row. `CountIsNumberOfMatches` states that it counts exactly
      the rows `Select` returns. */
  function Count(rows: seq<Employee>, f: Filters): (n: nat)
    ensures n <= |rows|
  {
    if |rows| == 0 then 0
    else (if Matches(rows[0], f) then 1 else 0) + Count(rows[1..], f)
  }

  /** The same selection under two filter maps that every row matches alike. */
  lemma {:induction false} SelectAgrees(rows: seq<Employee>, f: Filters, g: Filters)
    requires forall e :: Matches(e, f) <==> Matches(e, g)
    ensures Select(rows, f) == Select(rows, g)
    ensures Count(rows, f) == Count(rows, g)
  {
    if |rows| > 0 {
      SelectAgrees(rows[1..], f, g);
    }
  }

  /** `count` agrees with the rows the filter selects. */
  lemma {:induction false} CountIsNumberOfMatches(rows: seq<Employee>, f: Filters)
    ensures Count(rows, f) == |Select(rows, f)|
  {
    if |rows| > 0 {
      CountIsNumberOfMatches(rows[1..], f);
    }
  }

  /** With no active filter, `count` is the number of stored rows. */
  lemma {:induction false} CountWithoutFilters(rows: seq<Employee>, f: Filters)
    requires forall k :: k in QueryKeys ==> !Active(f, k)
    ensures Count(rows, f) == |rows|
  {
    if |rows| > 0 {
      NoFilterMatchesEverything(rows[0], f);
      CountWithoutFilters(rows[1..], f);
    }
  }

  /** Ordered by `createdAt`, newest first. */
  predicate NewestFirst(s: seq<Employee>) {
    forall i, j :: 0 <= i < j < |s| ==> s[i].createdAt >= s[j].createdAt
  }

  function Insert(e: Employee, s: seq<Employee>): (r: seq<Employee>)
    requires NewestFirst(s)
    ensures NewestFirst(r)
    ensures |r| == |s| + 1
    ensures r[0] == e || (|s| > 0 && r[0] == s[0])
    ensures multiset(r) == multiset(s) + multiset{e}
  {
    if |s| == 0 then [e]
    else if e.createdAt >= s[0].createdAt then
      PrependKeepsOrder(e, s);
      [e] + s
    else
      var rest := Insert(e, s[1..]);
      assert s == [s[0]] + s[1..];
      PrependKeepsOrder(s[0], rest);
      [s[0]] + rest
  }

  /** A row no older than the head of an ordered list may go in front of it. */
  lemma PrependKeepsOrder(x: Employee, s: seq<Employee>)
    requires NewestFirst(s) && (|s| > 0 ==> x.createdAt >= s[0].createdAt)
    ensures NewestFirst([x] + s)
  {
    var r := [x] + s;
    forall i, j | 0 <= i < j < |r| ensures r[i].createdAt >= r[j].createdAt {
      if i == 0 { assert r[j] == s[j - 1]; }
      else { assert r[i] == s[i - 1] && r[j] == s[j - 1]; }
    }
  }

  /** `ORDER BY e.createdAt DESC`. Rows with equal timestamps may come back
      in any order from the database; this insertion sort is one such order. */
  function SortNewestFirst(s: seq<Employee>): (r: seq<Employee>)
    ensures NewestFirst(r)
    ensures |r| == |s|
    ensures multiset(r) == multiset(s)
  {
    if |s| == 0 then []
    else
      assert s == [s[0]] + s[1..];
      Insert(s[0], SortNewestFirst(s[1..]))
  }

  /** No two different rows of `s` share a creation time. */
  predicate NoTies(s: seq<Employee>) {
    forall x, y :: x in s && y in s && x.createdAt == y.createdAt ==> x == y
  }

  /** When no two different rows share a creation time, a newest-first
      list is the only newest-first arrangement of its rows. */
  lemma {:induction false} NewestFirstIsUnique(a: seq<Employee>, b: seq<Employee>)
    requires NewestFirst(a) && NewestFirst(b) && multiset(a) == multiset(b)
    requires NoTies(a)
    ensures a == b
  {
    if |a| > 0 {
      SameHead(a, b);
      SameTailRows(a, b);
      TailKeepsOrder(a);
      TailKeepsOrder(b);
      NewestFirstIsUnique(a[1..], b[1..]);
      assert a == [a[0]] + a[1..] && b == [b[0]] + b[1..];
    } else {
      assert |b| == |multiset(b)| == 0;
    }
  }

  /** Dropping the head keeps a list newest first and free of ties. */
  lemma TailKeepsOrder(s: seq<Employee>)
    requires |s| > 0
    ensures NewestFirst(s) ==> NewestFirst(s[1..])
    ensures NoTies(s) ==> NoTies(s[1..])
  {
    assert forall x :: x in s[1..] ==> x in s;
  }

  /** Two newest-first arrangements of the same rows, without ties, start
      with the same row. */
  lemma SameHead(a: seq<Employee>, b: seq<Employee>)
    requires NewestFirst(a) && NewestFirst(b) && multiset(a) == multiset(b) && |a| > 0
    requires NoTies(a)
    ensures |b| > 0 && a[0] == b[0]
  {
    assert |b| == |multiset(b)| == |a|;
    assert b[0] in multiset(a) && a[0] in multiset(b);
    NewestIsFirst(a, b[0]);
    NewestIsFirst(b, a[0]);
  }

  /** Lists that hold the same rows and share a head hold the same rows after it. */
  lemma SameTailRows(a: seq<Employee>, b: seq<Employee>)
    requires |a| > 0 && |b| > 0 && a[0] == b[0] && multiset(a) == multiset(b)
    ensures multiset(a[1..]) == multiset(b[1..])
  {
    assert a == [a[0]] + a[1..] && b == [b[0]] + b[1..];
    assert multiset(a) == multiset([a[0]]) + multiset(a[1..]);
    assert multiset(b) == multiset([a[0]]) + multiset(b[1..]);
    assert multiset(a[1..]) == multiset(a) - multiset([a[0]]);
    assert multiset(b[1..]) == multiset(b) - multiset([a[0]]);
  }

  /** The head of a newest-first list is at least as new as any of its rows. */
  lemma NewestIsFirst(s: seq<Employee>, x: Employee)
    requires NewestFirst(s) && x in s
    ensures s[0].createdAt >= x.createdAt
  {
    var j :| 0 <= j < |s| && s[j] == x;
    if j > 0 {
      assert s[0].createdAt >= s[j].createdAt;
    }
  }

  /** `setFirstResult(offset)` then `setMaxResults(limit)`. */
  function Window(s: seq<Employee>, limit: nat, offset: nat): (r: seq<Employee>)
    ensures |r| == Remaining(|s|, limit, offset)
    ensures forall i :: 0 <= i < |r| ==> r[i] == s[offset + i]
    ensures forall e :: e in r ==> e in s
  {
    if offset >= |s| then [] else s[offset..offset + Min(limit, |s| - offset)]
  }

  /** How many of `n` rows a window of `limit` rows at `offset` holds: what
      is left after the offset, capped at `limit`. */
  function Remaining(n: nat, limit: nat, offset: nat): nat {
    if offset >= n then 0 else Min(limit, n - offset)
  }

  function Min(a: int, b: int): int {
    if a <= b then a else b
  }

  /** `findAll($limit, $offset, $filters)`: the matching rows, newest first,
      from position `offset` on and at most `limit` of them. The database
      layer refuses a negative limit or offset with an exception; its
      message is `refusal`. */
  function FindAll(rows: seq<Employee>, limit: int, offset: int, f: Filters, refusal: string): (r: Result<seq<Employee>>)
    ensures r.Failure? <==> limit < 0 || offset < 0
    ensures r.Failure? ==> r.error == RuntimeFailure(refusal)
    ensures r.Success? ==> |r.value| <= limit
    ensures r.Success? ==> |r.value| == Remaining(Count(rows, f), limit, offset)
    ensures r.Success? ==> NewestFirst(r.value)
    ensures r.Success? ==> forall e :: e in r.value ==> e in rows && Matches(e, f)
  {
    if limit < 0 || offset < 0 then Failure(RuntimeFailure(refusal))
    else
      MatchingWindow(rows, f, limit, offset);
      Success(Window(SortNewestFirst(Select(rows, f)), limit, offset))
  }

  /** A window of the sorted matches is as long as what remains of the
      count after the offset, newest first, and holds stored, matching rows. */
  lemma MatchingWindow(rows: seq<Employee>, f: Filters, limit: nat, offset: nat)
    ensures var w := Window(SortNewestFirst(Select(rows, f)), limit, offset);
      && |w| == Remaining(Count(rows, f), limit, offset)
      && NewestFirst(w)
      && forall e :: e in w ==> e in rows && Matches(e, f)
  {
    var sorted := SortNewestFirst(Select(rows, f));
    SortedSelectionSize(rows, f);
    WindowLength(sorted, Count(rows, f), limit, offset);
    WindowKeepsOrder(sorted, limit, offset);
    SelectedRowsMatch(rows, f, sorted);
  }

  /** Sorting the selection keeps its size, which is the count. */
  lemma SortedSelectionSize(rows: seq<Employee>, f: Filters)
    ensures |SortNewestFirst(Select(rows, f))| == Count(rows, f)
  {
    CountIsNumberOfMatches(rows, f);
  }

  /** A window of a list of `n` rows holds what remains after the offset, up to `limit`. */
  lemma WindowLength(xs: seq<Employee>, n: nat, limit: nat, offset: nat)
    requires |xs| == n
    ensures |Window(xs, limit, offset)| == Remaining(n, limit, offset)
  {
  }

  lemma WindowKeepsOrder(s: seq<Employee>, limit: nat, offset: nat)
    requires NewestFirst(s)
    ensures NewestFirst(Window(s, limit, offset))
  {
    var r := Window(s, limit, offset);
    forall i, j | 0 <= i < j < |r| ensures r[i].createdAt >= r[j].createdAt {
      assert r[i] == s[offset + i] && r[j] == s[offset + j];
    }
  }

  /** Any arrangement of the selected rows holds only stored, matching rows. */
  lemma SelectedRowsMatch(rows: seq<Employee>, f: Filters, s: seq<Employee>)
    requires multiset(s) == multiset(Select(rows, f))
    ensures forall e :: e in s ==> e in rows && Matches(e, f)
  {
    forall e | e in s ensures e in rows && Matches(e, f) {
      assert e in multiset(s);
      assert multiset(Select(rows, f))[e] > 0;
      assert e in multiset(rows);
    }
  }

  /** With limit and offset covering everything, `findAll` returns exactly
      the matching rows, each as often as it is stored. */
  lemma FindAllEverything(rows: seq<Employee>, f: Filters, refusal: string)
    ensures FindAll(rows, |rows|, 0, f, refusal).Success?
    ensures multiset(FindAll(rows, |rows|, 0, f, refusal).value) == multiset(Select(rows, f))
  {
    var sorted := SortNewestFirst(Select(rows, f));
    assert Window(sorted, |rows|, 0) == sorted;
  }

  /** The first row satisfying `p`, or `None`. */
  function First(rows: seq<Employee>, p: Employee -> bool): (r: Option<Employee>)
    ensures r.Some? ==> r.value in rows && p(r.value)
    ensures r.None? <==> forall e :: e in rows ==> !p(e)
  {
    if |rows| == 0 then None
    else if p(rows[0]) then Some(rows[0])
    else
      assert forall e :: e in rows ==> e == rows[0] || e in rows[1..];
      First(rows[1..], p)
  }

  /** `findById($id)`. */
  function FindById(rows: seq<Employee>, id: int): (r: Option<Employee>)
    ensures r.Some? ==> r.value in rows && r.value.id == Some(id)
    ensures r.None? <==> forall e :: e in rows ==> e.id != Some(id)
  {
    First(rows, (e: Employee) => e.id == Some(id))
  }

  /** `findByNip($nip)`: some row with exactly that NIP, or `None`. */
  function FindByNip(rows: seq<Employee>, nip: string): (r: Option<Employee>)
    ensures r.Some? ==> r.value in rows && r.value.nip == nip
    ensures r.None? <==> forall e :: e in rows ==> e.nip != nip
  {
    First(rows, (e: Employee) => e.nip == nip)
  }

  /** `findByEmail($email)`: some row with exactly that email, or `None`. */
  function FindByEmail(rows: seq<Employee>, email: string): (r: Option<Employee>)
    ensures r.Some? ==> r.value in rows && r.value.email == email
    ensures r.None? <==> forall e :: e in rows ==> e.email != email
  {
    First(rows, (e: Employee) => e.email == email)
  }

  predicate StrictlyAscending(s: seq<string>) {
    forall i, j :: 0 <= i < j < |s| ==> Less(s[i], s[j])
  }

  /** Adds `x` to a strictly ascending list unless it is already there. */
  function InsertDistinct(x: string, s: seq<string>): (r: seq<string>)
    requires StrictlyAscending(s)
    ensures StrictlyAscending(r)
    ensures forall v :: v in r <==> v in s || v == x
  {
    if |s| == 0 then [x]
    else if x == s[0] then s
    else if Less(x, s[0]) then
      assert forall j :: 0 <= j < |s| ==> Less(x, s[j]) by {
        forall j | 0 < j < |s| ensures Less(x, s[j]) {
          LessTransitive(x, s[0], s[j]);
        }
      }
      [x] + s
    else
      LessTotal(x, s[0]);
      var rest := InsertDistinct(x, s[1..]);
      assert forall j :: 0 <= j < |rest| ==> Less(s[0], rest[j]) by {
        forall j | 0 <= j < |rest| ensures Less(s[0], rest[j]) {
          assert rest[j] in rest;
          if rest[j] != x {
            var k :| 0 <= k < |s[1..]| && s[1..][k] == rest[j];
            assert s[k + 1] == rest[j];
          }
        }
      }
      assert forall v :: v in s <==> v == s[0] || v in s[1..] by {
        assert s == [s[0]] + s[1..];
      }
      [s[0]] + rest
  }

  /** The distinct values of `vals` in strictly ascending order. */
  function DistinctAscending(vals: seq<string>): (r: seq<string>)
    ensures StrictlyAscending(r)
    ensures forall v :: v in r <==> v in vals
  {
    if |vals| == 0 then []
    else
      assert forall v :: v in vals <==> v == vals[0] || v in vals[1..] by {
        assert vals == [vals[0]] + vals[1..];
      }
      InsertDistinct(vals[0], DistinctAscending(vals[1..]))
  }

  /** A strictly ascending list holds no value twice. */
  lemma AscendingHasNoDuplicates(s: seq<string>)
    requires StrictlyAscending(s)
    ensures forall i, j :: 0 <= i < j < |s| ==> s[i] != s[j]
  {
    forall i, j | 0 <= i < j < |s| ensures s[i] != s[j] {
      if s[i] == s[j] {
        LessIrreflexive(s[i]);
      }
    }
  }

  function Departemens(rows: seq<Employee>): (r: seq<string>)
    ensures |r| == |rows| && forall i :: 0 <= i < |rows| ==> r[i] == rows[i].departemen
  {
    seq(|rows|, i requires 0 <= i < |rows| => rows[i].departemen)
  }

  function Jabatans(rows: seq<Employee>): (r: seq<string>)
    ensures |r| == |rows| && forall i :: 0 <= i < |rows| ==> r[i] == rows[i].jabatan
  {
    seq(|rows|, i requires 0 <= i < |rows| => rows[i].jabatan)
  }

  /** The department column holds exactly the departments of the rows. */
  lemma DepartmentsOfRows(rows: seq<Employee>)
    ensures forall d :: d in Departemens(rows) <==> exists e :: e in rows && e.departemen == d
  {
    forall d | exists e :: e in rows && e.departemen == d ensures d in Departemens(rows) {
      var e :| e in rows && e.departemen == d;
      var i :| 0 <= i < |rows| && rows[i] == e;
      assert Departemens(rows)[i] == d;
    }
  }

  /** The position column holds exactly the positions of the rows. */
  lemma PositionsOfRows(rows: seq<Employee>)
    ensures forall p :: p in Jabatans(rows) <==> exists e :: e in rows && e.jabatan == p
  {
    forall p | exists e :: e in rows && e.jabatan == p ensures p in Jabatans(rows) {
      var e :| e in rows && e.jabatan == p;
      var i :| 0 <= i < |rows| && rows[i] == e;
      assert Jabatans(rows)[i] == p;
    }
  }

  function StatusValues(rows: seq<Employee>): (r: seq<string>)
    ensures |r| == |rows| && forall i :: 0 <= i < |rows| ==> r[i] == rows[i].status
  {
    seq(|rows|, i requires 0 <= i < |rows| => rows[i].status)
  }

  /** `getDepartments`: `SELECT DISTINCT departemen ... ORDER BY departemen ASC`. */
  function GetDepartments(rows: seq<Employee>): (r: seq<string>)
    ensures StrictlyAscending(r)
    ensures forall i, j :: 0 <= i < j < |r| ==> r[i] != r[j]
    ensures forall d :: d in r <==> exists e :: e in rows && e.departemen == d
  {
    var r := DistinctAscending(Departemens(rows));
    AscendingHasNoDuplicates(r);
    DepartmentsOfRows(rows);
    r
  }

  /** `getPositions`: `SELECT DISTINCT jabatan ... ORDER BY jabatan ASC`. */
  function GetPositions(rows: seq<Employee>): (r: seq<string>)
    ensures StrictlyAscending(r)
    ensures forall i, j :: 0 <= i < j < |r| ==> r[i] != r[j]
    ensures forall p :: p in r <==> exists e :: e in rows && e.jabatan == p
  {
    var r := DistinctAscending(Jabatans(rows));
    AscendingHasNoDuplicates(r);
    PositionsOfRows(rows);
    r
  }

  /** One row of a `GROUP BY` result: the group's key and `COUNT(e.id)`. */
  datatype Group = Group(key: string, count: nat)

  /** How many entries of `vals` equal `k`. */
  function Occurrences(vals: seq<string>, k: string): nat {
    if |vals| == 0 then 0
    else Occurrences(vals[..|vals| - 1], k) + (if vals[|vals| - 1] == k then 1 else 0)
  }

  /** Counting in a list split as head and tail adds the head's share. */
  lemma {:induction false} OccurrencesCons(x: string, rest: seq<string>, k: string)
    ensures Occurrences([x] + rest, k) == (if x == k then 1 else 0) + Occurrences(rest, k)
    decreases |rest|
  {
    if |rest| > 0 {
      var init := rest[..|rest| - 1];
      assert ([x] + rest)[..|rest|] == [x] + init;
      OccurrencesCons(x, init, k);
    }
  }

  /** The count the groups record for key `k`, 0 when there is no such group. */
  function CountOf(groups: seq<Group>, k: string): nat {
    if |groups| == 0 then 0
    else if groups[0].key == k then groups[0].count
    else CountOf(groups[1..], k)
  }

  function Sum(groups: seq<Group>): nat {
    if |groups| == 0 then 0 else groups[0].count + Sum(groups[1..])
  }

  predicate DistinctKeys(groups: seq<Group>) {
    forall i, j :: 0 <= i < j < |groups| ==> groups[i].key != groups[j].key
  }

  predicate PositiveCounts(groups: seq<Group>) {
    forall i :: 0 <= i < |groups| ==> groups[i].count > 0
  }

  predicate HasKey(groups: seq<Group>, k: string) {
    exists i :: 0 <= i < |groups| && groups[i].key == k
  }

  /** Counts one more `v`: increments its group, or appends a new group of one. */
  function Bump(groups: seq<Group>, v: string): seq<Group> {
    if |groups| == 0 then [Group(v, 1)]
    else if groups[0].key == v then [groups[0].(count := groups[0].count + 1)] + groups[1..]
    else [groups[0]] + Bump(groups[1..], v)
  }

  /** Bumping adds exactly one to the total. */
  lemma {:induction false} BumpSum(groups: seq<Group>, v: string)
    ensures Sum(Bump(groups, v)) == Sum(groups) + 1
  {
    if |groups| > 0 && groups[0].key != v {
      BumpSum(groups[1..], v);
    } else if |groups| > 0 {
      assert Bump(groups, v)[1..] == groups[1..];
    }
  }

  /** Bumping adds one to the count of `v` and leaves every other count alone. */
  lemma {:induction false} BumpCount(groups: seq<Group>, v: string, k: string)
    ensures CountOf(Bump(groups, v), k) == CountOf(groups, k) + (if k == v then 1 else 0)
  {
    if |groups| > 0 && groups[0].key != v {
      BumpCount(groups[1..], v, k);
    } else if |groups| > 0 {
      assert Bump(groups, v)[1..] == groups[1..];
    }
  }

  lemma HasKeyCons(g: Group, groups: seq<Group>, k: string)
    ensures HasKey([g] + groups, k) <==> g.key == k || HasKey(groups, k)
  {
    var r := [g] + groups;
    if HasKey(groups, k) {
      var i :| 0 <= i < |groups| && groups[i].key == k;
      assert r[i + 1].key == k;
    }
    if HasKey(r, k) && g.key != k {
      var i :| 0 <= i < |r| && r[i].key == k;
      assert groups[i - 1].key == k;
    }
    if g.key == k {
      assert r[0].key == k;
    }
  }

  /** Bumping keeps the keys distinct and the counts positive, and adds `v`
      to the keys. */
  lemma {:induction false} BumpKeys(groups: seq<Group>, v: string)
    requires DistinctKeys(groups) && PositiveCounts(groups)
    ensures DistinctKeys(Bump(groups, v)) && PositiveCounts(Bump(groups, v))
    ensures forall k :: HasKey(Bump(groups, v), k) <==> HasKey(groups, k) || k == v
  {
    var r := Bump(groups, v);
    if |groups| == 0 {
      assert r[0].key == v;
    } else {
      var tail := groups[1..];
      assert groups == [groups[0]] + tail;
      forall k ensures HasKey(groups, k) <==> groups[0].key == k || HasKey(tail, k) {
        HasKeyCons(groups[0], tail, k);
      }
      if groups[0].key == v {
        assert r == [r[0]] + tail;
        forall k ensures HasKey(r, k) <==> r[0].key == k || HasKey(tail, k) {
          HasKeyCons(r[0], tail, k);
        }
      } else {
        var rest := Bump(tail, v);
        BumpKeys(tail, v);
        assert r == [groups[0]] + rest;
        forall k ensures HasKey(r, k) <==> groups[0].key == k || HasKey(rest, k) {
          HasKeyCons(groups[0], rest, k);
        }
        forall j | 0 < j < |r| ensures r[0].key != r[j].key {
          assert rest[j - 1] == r[j];
          assert HasKey(rest, r[j].key);
        }
      }
    }
  }

  /** `GROUP BY` over a column: one group per distinct value, in order of
      first appearance, carrying the number of rows with that value. */
  function GroupCounts(vals: seq<string>): (r: seq<Group>)
    ensures DistinctKeys(r) && PositiveCounts(r)
    ensures Sum(r) == |vals|
    ensures forall k :: CountOf(r, k) == Occurrences(vals, k)
    ensures forall k :: HasKey(r, k) <==> k in vals
  {
    if |vals| == 0 then []
    else
      var init := vals[..|vals| - 1];
      assert forall k :: k in vals <==> k in init || k == vals[|vals| - 1] by {
        assert vals == init + [vals[|vals| - 1]];
      }
      var groups := GroupCounts(init);
      BumpKeys(groups, vals[|vals| - 1]);
      BumpSum(groups, vals[|vals| - 1]);
      forall k ensures CountOf(Bump(groups, vals[|vals| - 1]), k) == Occurrences(vals, k) {
        BumpCount(groups, vals[|vals| - 1], k);
        assert vals[..|vals| - 1] == init;
      }
      Bump(groups, vals[|vals| - 1])
  }

  /** The result of `getStatistics`. */
  datatype Statistics = Statistics(total: nat, byStatus: seq<Group>, byDepartment: seq<Group>)

  /** `getStatistics`: the row count and the counts grouped by status and by
      department. */
  function GetStatistics(rows: seq<Employee>): (r: Statistics)
    ensures r.total == |rows|
    ensures Sum(r.byStatus) == r.total && Sum(r.byDepartment) == r.total
    ensures DistinctKeys(r.byStatus) && PositiveCounts(r.byStatus)
    ensures DistinctKeys(r.byDepartment) && PositiveCounts(r.byDepartment)
    ensures forall s :: CountOf(r.byStatus, s) == Occurrences(StatusValues(rows), s)
    ensures forall d :: CountOf(r.byDepartment, d) == Occurrences(Departemens(rows), d)
    ensures forall d :: HasKey(r.byDepartment, d) <==> exists e :: e in rows && e.departemen == d
  {
    var byDepartment := GroupCounts(Departemens(rows));
    DepartmentsOfRows(rows);
    Statistics(|rows|, GroupCounts(StatusValues(rows)), byDepartment)
  }

  lemma {:induction false} CountAppend(a: seq<Employee>, b: seq<Employee>, f: Filters)
    ensures Count(a + b, f) == Count(a, f) + Count(b, f)
  {
    if |a| > 0 {
      assert (a + b)[1..] == a[1..] + b;
      CountAppend(a[1..], b, f);
    } else {
      assert a + b == b;
    }
  }

  /** Filtering on one department counts the rows that the statistics
      count under that department: `count` and `getStatistics` agree. */
  lemma {:induction false} DepartmentCountAgrees(rows: seq<Employee>, d: string)
    requires !EmptyString(d)
    ensures Count(rows, map["departemen" := d]) == CountOf(GetStatistics(rows).byDepartment, d)
  {
    DepartmentOccurrences(rows, d);
  }

  lemma {:induction false} DepartmentOccurrences(rows: seq<Employee>, d: string)
    requires !EmptyString(d)
    ensures Count(rows, map["departemen" := d]) == Occurrences(Departemens(rows), d)
  {
    var f := map["departemen" := d];
    if |rows| > 0 {
      var init := rows[..|rows| - 1];
      var last := rows[|rows| - 1];
      assert rows == init + [last];
      DepartmentOccurrences(init, d);
      CountAppend(init, [last], f);
      assert Departemens(rows)[..|rows| - 1] == Departemens(init);
      assert Active(f, "departemen") && !Active(f, "status") && !Active(f, "jabatan") && !Active(f, "search");
      assert Count([last], f) == if last.departemen == d then 1 else 0 by {
        assert [last][1..] == [];
      }
    }
  }
}
