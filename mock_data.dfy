/**
 * The twelve demonstration records the employee table starts with
 * (src/components/DataTable.tsx), used as a concrete row for the
 * query pipeline's general lemmas.
 */
module MockEmployees {
  import opened Text
  import opened TableQuery

  const MockData: seq<Employee> := [
    Employee(1, "John Smith", "john.smith@company.com", "Engineering", "Senior Developer", 85000, "2022-01-15", Active),
    Employee(2, "Sarah Johnson", "sarah.johnson@company.com", "Marketing", "Marketing Manager", 72000, "2021-08-20", Active),
    Employee(3, "Michael Brown", "michael.brown@company.com", "Engineering", "Frontend Developer", 68000, "2023-03-10", Active),
    Employee(4, "Emily Davis", "emily.davis@company.com", "HR", "HR Specialist", 55000, "2022-06-01", OnLeave),
    Employee(5, "David Wilson", "david.wilson@company.com", "Sales", "Sales Representative", 60000, "2021-11-15", Active),
    Employee(6, "Lisa Anderson", "lisa.anderson@company.com", "Engineering", "DevOps Engineer", 78000, "2022-09-05", Inactive),
    Employee(7, "James Taylor", "james.taylor@company.com", "Finance", "Financial Analyst", 65000, "2023-01-20", Active),
    Employee(8, "Jennifer Martinez", "jennifer.martinez@company.com", "Marketing", "Content Specialist", 58000, "2022-04-12", Active),
    Employee(9, "Robert Garcia", "robert.garcia@company.com", "Engineering", "Backend Developer", 75000, "2021-12-08", Active),
    Employee(10, "Mary Rodriguez", "mary.rodriguez@company.com", "Sales", "Sales Manager", 82000, "2021-05-30", Active),
    Employee(11, "William Lee", "william.lee@company.com", "IT", "System Administrator", 70000, "2022-10-18", Active),
    Employee(12, "Patricia Thompson", "patricia.thompson@company.com", "HR", "HR Manager", 80000, "2021-07-14", Active)
  ]

  /** Twelve records at five per page make three pages of 5, 5 and 2 records,
      and they concatenate back to the whole list. */
  lemma MockPages()
    ensures TotalPages(|MockData|, 5) == 3
    ensures |Paginate(MockData, 1, 5)| == 5
    ensures |Paginate(MockData, 2, 5)| == 5
    ensures |Paginate(MockData, 3, 5)| == 2
    ensures Paginate(MockData, 4, 5) == []
    ensures PagesUpTo(MockData, 5, 3) == MockData
  {
    PagesCoverAll(MockData, 5);
  }

  const MockDepartmentList: seq<string> := ["Engineering", "Finance", "HR", "IT", "Marketing", "Sales"]

  lemma MockDepartmentListIncreasing()
    ensures StrictlyIncreasing(MockDepartmentList)
  {
    var l := MockDepartmentList;
    forall i, j | 0 <= i < j < |l| ensures StrLess(l[i], l[j]) {
      assert l[i][0] < l[j][0];
    }
  }

  lemma MockDepartmentOf(e: Employee)
    requires e in MockData
    ensures e.department in MockDepartmentList
  {
  }

  /** A record of each listed department. */
  lemma MockDepartmentWitness(i: nat)
    requires i < |MockDepartmentList|
    ensures exists e :: e in MockData && e.department == MockDepartmentList[i]
  {
    var row := if i == 0 then 0 else if i == 1 then 6 else if i == 2 then 3
               else if i == 3 then 10 else if i == 4 then 1 else 4;
    assert MockData[row] in MockData;
  }

  lemma MockDepartmentValues(r: seq<string>)
    requires forall d :: d in r <==> exists e :: e in MockData && e.department == d
    ensures forall d :: d in r <==> d in MockDepartmentList
  {
    forall d ensures d in r <==> d in MockDepartmentList {
      if d in MockDepartmentList {
        var i :| 0 <= i < |MockDepartmentList| && MockDepartmentList[i] == d;
        MockDepartmentWitness(i);
      }
      if d in r {
        var e :| e in MockData && e.department == d;
        MockDepartmentOf(e);
      }
    }
  }

  /** The department dropdown lists six departments, in string order. */
  lemma MockDepartments()
    ensures Departments(MockData) == MockDepartmentList
  {
    var r := Departments(MockData);
    MockDepartmentListIncreasing();
    MockDepartmentValues(r);
    StrictlyIncreasingUnique(r, MockDepartmentList);
  }

  const MockStatusList: seq<string> := ["Active", "Inactive", "On Leave"]

  lemma MockStatusListIncreasing()
    ensures StrictlyIncreasing(MockStatusList)
  {
    var l := MockStatusList;
    forall i, j | 0 <= i < j < |l| ensures StrLess(l[i], l[j]) {
      assert l[i][0] < l[j][0];
    }
  }

  /** A record of each listed status. */
  lemma MockStatusWitness(i: nat)
    requires i < |MockStatusList|
    ensures exists e :: e in MockData && StatusText(e.status) == MockStatusList[i]
  {
    var row := if i == 0 then 0 else if i == 1 then 5 else 3;
    assert MockData[row] in MockData;
  }

  /** Every status is one of the three listed. */
  lemma StatusListed(st: Status)
    ensures StatusText(st) in MockStatusList
  {
    var i := if st == Active then 0 else if st == Inactive then 1 else 2;
    assert MockStatusList[i] == StatusText(st);
  }

  lemma MockStatusValues(r: seq<string>)
    requires forall s :: s in r <==> exists e :: e in MockData && StatusText(e.status) == s
    ensures forall s :: s in r <==> s in MockStatusList
  {
    forall s ensures s in r <==> s in MockStatusList {
      if s in MockStatusList {
        var i :| 0 <= i < |MockStatusList| && MockStatusList[i] == s;
        MockStatusWitness(i);
      }
      if s in r {
        var e :| e in MockData && StatusText(e.status) == s;
        StatusListed(e.status);
      }
    }
  }

  /** The status dropdown lists the three statuses, in string order. */
  lemma MockStatuses()
    ensures Statuses(MockData) == MockStatusList
  {
    var r := Statuses(MockData);
    MockStatusListIncreasing();
    MockStatusValues(r);
    StrictlyIncreasingUnique(r, MockStatusList);
  }

  /** Only the sixth record is inactive: the status filter "Inactive" alone
      leaves one record, a single page at any page size. */
  lemma MockInactive()
    ensures Filter(MockData, Criteria("", "", "Inactive")) == [MockData[5]]
  {
    FilterSingleInactive(MockData, 5);
  }
}
