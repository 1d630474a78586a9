/** The `Employee` entity: the record of one employee, its construction with
    the default status, the single-field setters (one of which, the status
    setter, enforces the status allow-list), the pre-update hook and the
    JSON key mapping. The PHP class is mutable; here every setter returns a
    new record. */
module EmployeeEntity {
  import opened Outcomes

  /** The status allow-list, in the order the source lists it. */
  const Statuses: seq<string> := ["aktif", "non_aktif", "cuti"]

  const DefaultStatus: string := "aktif"

  predicate ValidStatus(s: string) {
    s in Statuses
  }

  /** A calendar date as `DateTime::createFromFormat('Y-m-d', ...)` yields it. */
  datatype Date = Date(year: int, month: int, day: int)

  /** One employee row. `id` is `None` until the store assigns it;
      `createdAt` and `updatedAt` are clock readings. */
  datatype Employee = Employee(
    id: Option<int>,
    nip: string,
    namaLengkap: string,
    email: string,
    noTelepon: Option<string>,
    jabatan: string,
    departemen: string,
    tanggalMasuk: Date,
    gaji: real,
    status: string,
    alamat: Option<string>,
    createdAt: int,
    updatedAt: int)

  /** `new Employee()` at clock reading `now`. The PHP constructor leaves the
      required string, date and salary properties uninitialised; they are
      given placeholder values here, which the create path always
      overwrites. */
  function New(now: int): (e: Employee)
    ensures e.id.None?
    ensures e.status == DefaultStatus && ValidStatus(e.status)
    ensures e.noTelepon.None? && e.alamat.None?
    ensures e.createdAt == now && e.updatedAt == now
  {
    Employee(None, "", "", "", None, "", "", Date(0, 0, 0), 0.0, DefaultStatus, None, now, now)
  }

  /** The Doctrine `PreUpdate` hook: refreshes `updatedAt` and nothing else. */
  function PreUpdate(e: Employee, now: int): (r: Employee)
    ensures r.updatedAt == now
    ensures r.createdAt == e.createdAt
    ensures r.(updatedAt := e.updatedAt) == e
  {
    e.(updatedAt := now)
  }

  // Setters. Each changes its own field and leaves every other field as it was.

  function SetNip(e: Employee, nip: string): (r: Employee)
    ensures r.nip == nip && r.(nip := e.nip) == e
  {
    e.(nip := nip)
  }

  function SetNamaLengkap(e: Employee, namaLengkap: string): (r: Employee)
    ensures r.namaLengkap == namaLengkap && r.(namaLengkap := e.namaLengkap) == e
  {
    e.(namaLengkap := namaLengkap)
  }

  function SetEmail(e: Employee, email: string): (r: Employee)
    ensures r.email == email && r.(email := e.email) == e
  {
    e.(email := email)
  }

  function SetNoTelepon(e: Employee, noTelepon: Option<string>): (r: Employee)
    ensures r.noTelepon == noTelepon && r.(noTelepon := e.noTelepon) == e
  {
    e.(noTelepon := noTelepon)
  }

  function SetJabatan(e: Employee, jabatan: string): (r: Employee)
    ensures r.jabatan == jabatan && r.(jabatan := e.jabatan) == e
  {
    e.(jabatan := jabatan)
  }

  function SetDepartemen(e: Employee, departemen: string): (r: Employee)
    ensures r.departemen == departemen && r.(departemen := e.departemen) == e
  {
    e.(departemen := departemen)
  }

  function SetTanggalMasuk(e: Employee, tanggalMasuk: Date): (r: Employee)
    ensures r.tanggalMasuk == tanggalMasuk && r.(tanggalMasuk := e.tanggalMasuk) == e
  {
    e.(tanggalMasuk := tanggalMasuk)
  }

  function SetGaji(e: Employee, gaji: real): (r: Employee)
    ensures r.gaji == gaji && r.(gaji := e.gaji) == e
  {
    e.(gaji := gaji)
  }

  /** The guarded setter: a value outside the allow-list is refused with
      "Invalid status value" and no record is produced. */
  function SetStatus(e: Employee, status: string): (r: Result<Employee>)
    ensures r.Success? <==> ValidStatus(status)
    ensures r.Success? ==> r.value.status == status && r.value.(status := e.status) == e
    ensures r.Failure? ==> r.error == InvalidArgument("Invalid status value")
  {
    if status in Statuses then Success(e.(status := status))
    else Failure(InvalidArgument("Invalid status value"))
  }

  function SetAlamat(e: Employee, alamat: Option<string>): (r: Employee)
    ensures r.alamat == alamat && r.(alamat := e.alamat) == e
  {
    e.(alamat := alamat)
  }

  /** A JSON scalar as `json_encode` writes it. */
  datatype Json = JNull | JInt(i: int) | JNum(r: real) | JStr(s: string)

  /** The keys `jsonSerialize` emits, in order. */
  const JsonKeys: seq<string> := [
    "id", "nip", "nama_lengkap", "email", "no_telepon", "jabatan", "departemen",
    "tanggal_masuk", "gaji", "status", "alamat", "created_at", "updated_at"]

  /** The value stored under key `k` in an ordered list of JSON members. */
  function Lookup(members: seq<(string, Json)>, k: string): Option<Json> {
    if |members| == 0 then None
    else if members[0].0 == k then Some(members[0].1)
    else Lookup(members[1..], k)
  }

  /** When the keys are distinct, looking a member's key up yields that member's value. */
  lemma {:induction false} LookupFindsEachMember(members: seq<(string, Json)>)
    requires forall i, j :: 0 <= i < j < |members| ==> members[i].0 != members[j].0
    ensures forall i :: 0 <= i < |members| ==> Lookup(members, members[i].0) == Some(members[i].1)
  {
    if |members| > 0 {
      var rest := members[1..];
      LookupFindsEachMember(rest);
      forall i | 0 < i < |members|
        ensures Lookup(members, members[i].0) == Some(members[i].1)
      {
        assert members[i] == rest[i - 1];
      }
    }
  }

  /** Pairs each key with the value at the same position. */
  function Members(keys: seq<string>, values: seq<Json>): (r: seq<(string, Json)>)
    requires |keys| == |values|
    ensures |r| == |keys| && forall i :: 0 <= i < |r| ==> r[i] == (keys[i], values[i])
  {
    seq(|keys|, i requires 0 <= i < |keys| => (keys[i], values[i]))
  }

  function OptionalString(s: Option<string>): Json {
    match s
    case None => JNull
    case Some(t) => JStr(t)
  }

  /** `jsonSerialize`. Date and time formatting (`format('Y-m-d')` and
      `format('Y-m-d H:i:s')`) are library calls and are passed in. */
  function Serialize(e: Employee, formatDate: Date -> string, formatTime: int -> string):
    (r: seq<(string, Json)>)
    ensures |r| == |JsonKeys| && forall i :: 0 <= i < |r| ==> r[i].0 == JsonKeys[i]
    ensures forall i :: 0 <= i < |r| ==> Lookup(r, JsonKeys[i]) == Some(r[i].1)
  {
    var values := [ if e.id.Some? then JInt(e.id.value) else JNull,
      JStr(e.nip),
      JStr(e.namaLengkap),
      JStr(e.email),
      OptionalString(e.noTelepon),
      JStr(e.jabatan),
      JStr(e.departemen),
      JStr(formatDate(e.tanggalMasuk)),
      JNum(e.gaji),
      JStr(e.status),
      OptionalString(e.alamat),
      JStr(formatTime(e.createdAt)),
      JStr(formatTime(e.updatedAt)) ];
    var r := Members(JsonKeys, values);
    JsonKeysDistinct();
    LookupFindsEachMember(r);
    r
  }

  /** Reading each key of the serialised record back yields the field the
      key names: the identity fields and contact details. */
  lemma SerializeIdentity(e: Employee, formatDate: Date -> string, formatTime: int -> string)
    ensures var r := Serialize(e, formatDate, formatTime);
      && Lookup(r, "id") == Some(if e.id.Some? then JInt(e.id.value) else JNull)
      && Lookup(r, "nip") == Some(JStr(e.nip))
      && Lookup(r, "nama_lengkap") == Some(JStr(e.namaLengkap))
      && Lookup(r, "email") == Some(JStr(e.email))
      && Lookup(r, "no_telepon") == Some(OptionalString(e.noTelepon))
      && Lookup(r, "alamat") == Some(OptionalString(e.alamat))
  {
    var r := Serialize(e, formatDate, formatTime);
    assert Lookup(r, JsonKeys[0]) == Some(r[0].1);
    assert Lookup(r, JsonKeys[1]) == Some(r[1].1);
    assert Lookup(r, JsonKeys[2]) == Some(r[2].1);
    assert Lookup(r, JsonKeys[3]) == Some(r[3].1);
    assert Lookup(r, JsonKeys[4]) == Some(r[4].1);
    assert Lookup(r, JsonKeys[10]) == Some(r[10].1);
  }

  /** Reading back the employment fields and timestamps: position,
      department, start date, salary, status and the two clock readings. */
  lemma SerializeEmployment(e: Employee, formatDate: Date -> string, formatTime: int -> string)
    ensures var r := Serialize(e, formatDate, formatTime);
      && Lookup(r, "jabatan") == Some(JStr(e.jabatan))
      && Lookup(r, "departemen") == Some(JStr(e.departemen))
      && Lookup(r, "tanggal_masuk") == Some(JStr(formatDate(e.tanggalMasuk)))
      && Lookup(r, "gaji") == Some(JNum(e.gaji))
      && Lookup(r, "status") == Some(JStr(e.status))
      && Lookup(r, "created_at") == Some(JStr(formatTime(e.createdAt)))
      && Lookup(r, "updated_at") == Some(JStr(formatTime(e.updatedAt)))
  {
    var r := Serialize(e, formatDate, formatTime);
    assert Lookup(r, JsonKeys[5]) == Some(r[5].1);
    assert Lookup(r, JsonKeys[6]) == Some(r[6].1);
    assert Lookup(r, JsonKeys[7]) == Some(r[7].1);
    assert Lookup(r, JsonKeys[8]) == Some(r[8].1);
    assert Lookup(r, JsonKeys[9]) == Some(r[9].1);
    assert Lookup(r, JsonKeys[11]) == Some(r[11].1);
    assert Lookup(r, JsonKeys[12]) == Some(r[12].1);
  }

  /** Every key of the serialised record names exactly one member, so a
      client reading a key gets the field the key stands for. */
  lemma JsonKeysDistinct()
    ensures forall i, j :: 0 <= i < j < |JsonKeys| ==> JsonKeys[i] != JsonKeys[j]
  {
  }
}
