/** The five sample rows the table migration inserts, as a store, and what
    the queries and operations answer on them. All five rows are inserted by
    one statement, so they share one `created_at` reading, taken here as 0. */
module SeedData {
  import opened Outcomes
  import opened PhpValues
  import opened EmployeeEntity
  import opened EmployeeRepository
  import opened EmployeeService

  function Row(id: int, nip: string, nama: string, email: string, telepon: string, jabatan: string,
               departemen: string, masuk: Date, gaji: real, status: string, alamat: string): Employee
  {
    Employee(Some(id), nip, nama, email, Some(telepon), jabatan, departemen, masuk, gaji, status, Some(alamat), 0, 0)
  }

  const SeedRows: seq<Employee> := [
    Row(1, "EMP001", "Ahmad Wijaya", "ahmad.wijaya@company.com", "081234567890", "Software Engineer", "IT",
        Date(2023, 1, 15), 8000000.0, "aktif", "Jl. Sudirman No. 123, Jakarta"),
    Row(2, "EMP002", "Siti Nurhaliza", "siti.nurhaliza@company.com", "081234567891", "HR Manager", "Human Resources",
        Date(2022, 3, 10), 12000000.0, "aktif", "Jl. Thamrin No. 456, Jakarta"),
    Row(3, "EMP003", "Budi Santoso", "budi.santoso@company.com", "081234567892", "Marketing Specialist", "Marketing",
        Date(2023, 6, 20), 6000000.0, "aktif", "Jl. Gatot Subroto No. 789, Jakarta"),
    Row(4, "EMP004", "Dewi Sartika", "dewi.sartika@company.com", "081234567893", "Accountant", "Finance",
        Date(2021, 11, 5), 7000000.0, "cuti", "Jl. Kuningan No. 321, Jakarta"),
    Row(5, "EMP005", "Rizki Pratama", "rizki.pratama@company.com", "081234567894", "Project Manager", "IT",
        Date(2020, 8, 12), 15000000.0, "aktif", "Jl. Senayan No. 654, Jakarta")]

  const Seed: Store := Store(SeedRows, 6)

  /** The sample data satisfies the table's constraints. */
  lemma SeedKeepsInvariant()
    ensures StoreInvariant(Seed)
  {
    var nips := ["EMP001", "EMP002", "EMP003", "EMP004", "EMP005"];
    var emails := ["ahmad.wijaya@company.com", "siti.nurhaliza@company.com", "budi.santoso@company.com",
                   "dewi.sartika@company.com", "rizki.pratama@company.com"];
    assert forall i :: 0 <= i < 5 ==> (SeedRows[i].id == Some(i + 1) && SeedRows[i].nip == nips[i]
      && SeedRows[i].email == emails[i] && ValidStatus(SeedRows[i].status));
    forall i, j | 0 <= i < j < 5 ensures nips[i] != nips[j] && emails[i] != emails[j] {
      assert nips[i][5] != nips[j][5];
      assert emails[i][0] != emails[j][0];
    }
  }

  /** The statistics count five employees, two of them in IT and one on leave. */
  lemma SeedStatistics()
    ensures GetStatistics(SeedRows).total == 5
    ensures CountOf(GetStatistics(SeedRows).byDepartment, "IT") == 2
    ensures CountOf(GetStatistics(SeedRows).byStatus, "cuti") == 1
    ensures CountOf(GetStatistics(SeedRows).byStatus, "aktif") == 4
  {
    var d := Departemens(SeedRows);
    assert d == ["IT"] + (["Human Resources"] + (["Marketing"] + (["Finance"] + (["IT"] + []))));
    OccurrencesCons("IT", [], "IT");
    OccurrencesCons("Finance", ["IT"] + [], "IT");
    OccurrencesCons("Marketing", ["Finance"] + (["IT"] + []), "IT");
    OccurrencesCons("Human Resources", ["Marketing"] + (["Finance"] + (["IT"] + [])), "IT");
    OccurrencesCons("IT", ["Human Resources"] + (["Marketing"] + (["Finance"] + (["IT"] + []))), "IT");
    var st := StatusValues(SeedRows);
    assert st == ["aktif"] + (["aktif"] + (["aktif"] + (["cuti"] + (["aktif"] + []))));
    forall k | k == "cuti" || k == "aktif"
      ensures Occurrences(st, k) == if k == "cuti" then 1 else 4
    {
      OccurrencesCons("aktif", [], k);
      OccurrencesCons("cuti", ["aktif"] + [], k);
      OccurrencesCons("aktif", ["cuti"] + (["aktif"] + []), k);
      OccurrencesCons("aktif", ["aktif"] + (["cuti"] + (["aktif"] + [])), k);
      OccurrencesCons("aktif", ["aktif"] + (["aktif"] + (["cuti"] + (["aktif"] + []))), k);
    }
  }

  /** Filtering on department IT counts two rows, EMP001 and EMP005. */
  lemma SeedDepartmentIT()
    ensures Count(SeedRows, map["departemen" := "IT"]) == 2
  {
    SeedStatistics();
    DepartmentCountAgrees(SeedRows, "IT");
  }

  /** A new employee with the NIP of a sample row is refused. */
  lemma SeedRefusesTakenNip(lib: Library, data: map<string, Value>, now: int)
    requires ValidPayload(lib, data) && data["nip"] == VStr("EMP003")
    ensures CreateEmployee(lib, Seed, data, now) == Outcome(Failure(InvalidArgument("NIP already exists")), Seed)
  {
    assert SeedRows[2] in Seed.rows;
  }
}
