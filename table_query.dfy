/**
 * The employee table's query pipeline (src/components/DataTable.tsx): the
 * record type, the derived `departments`/`statuses` option lists, and the
 * `filteredData` -> `sortedData` -> `paginatedData` derivations with
 * `totalPages`, the "Showing X to Y of N" footer and the page-number window.
 * Each derivation is a pure function of the component state.
 */
module TableQuery {
  import opened Text

  datatype Status = Active | Inactive | OnLeave

  /** The string value a status has in the record (and in the status filter). */
  function StatusText(s: Status): string {
    match s
    case Active => "Active"
    case Inactive => "Inactive"
    case OnLeave => "On Leave"
  }

  /** Different statuses read differently, so a status filter selects one
      status. */
  lemma StatusTextInjective(a: Status, b: Status)
    ensures StatusText(a) == StatusText(b) <==> a == b
  {
    if a != b {
      assert StatusText(a)[0] != StatusText(b)[0];
    }
  }

  datatype Employee = Employee(
    id: nat,
    name: string,
    email: string,
    department: string,
    position: string,
    salary: nat,
    hireDate: string,
    status: Status)

  /** `keyof Employee`: the field a table is sorted on. */
  datatype SortField =
    | IdField | NameField | EmailField | DepartmentField | PositionField
    | SalaryField | HireDateField | StatusField

  datatype SortOrder = Asc | Desc

  function Min(a: int, b: int): int { if a <= b then a else b }

  function Max(a: int, b: int): int { if a <= b then b else a }

  // ---------------------------------------------------------------------------
  // departments / statuses option lists

  /** Strictly increasing in string order, hence free of duplicates. */
  predicate StrictlyIncreasing(r: seq<string>) {
    forall i, j :: 0 <= i < j < |r| ==> StrLess(r[i], r[j])
  }

  /** Adds `x` to a strictly increasing list unless it is already there. */
  function InsertDistinct(x: string, t: seq<string>): (r: seq<string>)
    requires StrictlyIncreasing(t)
    ensures StrictlyIncreasing(r)
    ensures forall v :: v in r <==> v == x || v in t
  {
    if t == [] then [x]
    else if x == t[0] then t
    else if StrLess(x, t[0]) then
      assert forall j :: 0 <= j < |t| ==> StrLess(x, t[j]) by {
        forall j | 0 < j < |t| ensures StrLess(x, t[j]) { StrLessTransitive(x, t[0], t[j]); }
      }
      [x] + t
    else
      StrLessTotal(x, t[0]);
      var u := InsertDistinct(x, t[1..]);
      assert forall v :: v in u ==> StrLess(t[0], v);
      [t[0]] + u
  }

  /** `Array.from(new Set(values)).sort()`: the distinct values, in string order. */
  function SortedDistinct(values: seq<string>): (r: seq<string>)
    ensures StrictlyIncreasing(r)
    ensures forall v :: v in r <==> v in values
  {
    if values == [] then [] else InsertDistinct(values[0], SortedDistinct(values[1..]))
  }

  /** Two strictly increasing lists with the same elements are equal: the
      option list is determined by the set of values alone. */
  lemma {:induction false} StrictlyIncreasingUnique(a: seq<string>, b: seq<string>)
    requires StrictlyIncreasing(a) && StrictlyIncreasing(b)
    requires forall v :: v in a <==> v in b
    ensures a == b
  {
    if a != [] && b != [] {
      assert a[0] in a && b[0] in b;
      NotBelowFirst(a, b[0]);
      NotBelowFirst(b, a[0]);
      StrLessTrichotomy(a[0], b[0]);
      forall v ensures v in a[1..] ==> v in b[1..] {
        TailMember(a, b, v);
      }
      forall v ensures v in b[1..] ==> v in a[1..] {
        TailMember(b, a, v);
      }
      StrictlyIncreasingUnique(a[1..], b[1..]);
    } else if a != [] {
      HeadIsMember(a);
      assert false;
    } else if b != [] {
      HeadIsMember(b);
      assert false;
    }
  }

  lemma HeadIsMember<T>(a: seq<T>)
    requires a != []
    ensures a[0] in a
  {
  }

  /** No element of a strictly increasing list is below its first. */
  lemma NotBelowFirst(a: seq<string>, v: string)
    requires StrictlyIncreasing(a) && v in a
    ensures !StrLess(v, a[0])
  {
    var i :| 0 <= i < |a| && a[i] == v;
    if i == 0 {
      StrLessIrreflexive(v);
    } else {
      StrLessAsymmetric(a[0], v);
    }
  }

  lemma TailMember(a: seq<string>, b: seq<string>, v: string)
    requires a != [] && b != [] && a[0] == b[0]
    requires StrictlyIncreasing(a)
    requires forall w :: w in a ==> w in b
    ensures v in a[1..] ==> v in b[1..]
  {
    if v in a[1..] {
      var i :| 0 <= i < |a| - 1 && a[1..][i] == v;
      assert a[i + 1] == v;
      StrLessIrreflexive(v);
      assert v in a;
      var j :| 0 <= j < |b| && b[j] == v;
      assert b[1..][j - 1] == v;
    }
  }

  /** `departments`: the distinct departments of `data`, in string order. */
  function Departments(data: seq<Employee>): (r: seq<string>)
    ensures StrictlyIncreasing(r)
    ensures forall d :: d in r <==> exists e :: e in data && e.department == d
  {
    var values := seq(|data|, i requires 0 <= i < |data| => data[i].department);
    assert forall e :: e in data ==> e.department in values by {
      forall e | e in data ensures e.department in values {
        var i :| 0 <= i < |data| && data[i] == e;
        assert values[i] == e.department;
      }
    }
    SortedDistinct(values)
  }

  /** `statuses`: the distinct statuses of `data`, in string order. */
  function Statuses(data: seq<Employee>): (r: seq<string>)
    ensures StrictlyIncreasing(r)
    ensures forall s :: s in r <==> exists e :: e in data && StatusText(e.status) == s
  {
    var values := seq(|data|, i requires 0 <= i < |data| => StatusText(data[i].status));
    assert forall e :: e in data ==> StatusText(e.status) in values by {
      forall e | e in data ensures StatusText(e.status) in values {
        var i :| 0 <= i < |data| && data[i] == e;
        assert values[i] == StatusText(e.status);
      }
    }
    SortedDistinct(values)
  }

  // ---------------------------------------------------------------------------
  // filteredData

  /** `Object.values(item).map(v => v.toString())`, in declaration order. */
  function FieldTexts(e: Employee): (r: seq<string>)
    ensures |r| == 8
    ensures NatToDecimal(e.id) in r && e.name in r && e.email in r && e.department in r
    ensures e.position in r && NatToDecimal(e.salary) in r && e.hireDate in r && StatusText(e.status) in r
  {
    [NatToDecimal(e.id), e.name, e.email, e.department, e.position,
     NatToDecimal(e.salary), e.hireDate, StatusText(e.status)]
  }

  /** The search, department and status inputs that drive the filter. */
  datatype Criteria = Criteria(searchTerm: string, department: string, status: string)

  /** Some field's lower-cased text includes the lower-cased search term. */
  predicate MatchesSearch(e: Employee, term: string)
    ensures term == "" ==> MatchesSearch(e, term)
  {
    assert ToLower("") == "";
    assert Contains(ToLower(NatToDecimal(e.id)), "");
    exists v | v in FieldTexts(e) :: Contains(ToLower(v), ToLower(term))
  }

  /** An empty department filter (`!selectedDepartment`) accepts every record. */
  predicate MatchesDepartment(e: Employee, department: string) {
    department == "" || e.department == department
  }

  /** An empty status filter accepts every record. */
  predicate MatchesStatus(e: Employee, status: string) {
    status == "" || StatusText(e.status) == status
  }

  predicate Matches(e: Employee, c: Criteria)
    ensures c == Criteria("", "", "") ==> Matches(e, c)
    ensures Matches(e, c) && c.department != "" ==> e.department == c.department
    ensures Matches(e, c) && c.status != "" ==> StatusText(e.status) == c.status
  {
    MatchesSearch(e, c.searchTerm) && MatchesDepartment(e, c.department) && MatchesStatus(e, c.status)
  }

  /** `a` can be obtained from `b` by deleting elements (order preserved). */
  predicate IsSubsequence(a: seq<Employee>, b: seq<Employee>)
    decreases |b|
  {
    if a == [] then true
    else if b == [] then false
    else if a[0] == b[0] then IsSubsequence(a[1..], b[1..])
    else IsSubsequence(a, b[1..])
  }

  /** `data.filter(item => matchesSearch && matchesDepartment && matchesStatus)`. */
  function Filter(data: seq<Employee>, c: Criteria): (r: seq<Employee>)
    ensures IsSubsequence(r, data)
    ensures forall e :: e in r <==> e in data && Matches(e, c)
  {
    if data == [] then []
    else if Matches(data[0], c) then [data[0]] + Filter(data[1..], c)
    else Filter(data[1..], c)
  }

  /** Every record is kept exactly as often as it occurs in `data` when it
      matches, and never otherwise. */
  lemma {:induction false} FilterCounts(data: seq<Employee>, c: Criteria, e: Employee)
    ensures multiset(Filter(data, c))[e] == if Matches(e, c) then multiset(data)[e] else 0
  {
    if data != [] {
      FilterCounts(data[1..], c, e);
      assert data == [data[0]] + data[1..];
    }
  }

  /** With no search term and no department or status filter every record is
      kept. */
  lemma {:induction false} FilterNoCriteria(data: seq<Employee>)
    ensures Filter(data, Criteria("", "", "")) == data
  {
    if data != [] {
      FilterNoCriteria(data[1..]);
    }
  }

  /** Filtering a concatenation filters each part: the filter looks at one
      record at a time. */
  lemma {:induction false} FilterConcat(a: seq<Employee>, b: seq<Employee>, c: Criteria)
    ensures Filter(a + b, c) == Filter(a, c) + Filter(b, c)
  {
    if a == [] {
      assert a + b == b;
    } else {
      assert (a + b)[0] == a[0] && (a + b)[1..] == a[1..] + b;
      FilterConcat(a[1..], b, c);
    }
  }

  /** A list in which no record has the filtered status filters to nothing. */
  lemma {:induction false} FilterNoStatus(data: seq<Employee>, c: Criteria)
    requires c.status != ""
    requires forall i | 0 <= i < |data| :: StatusText(data[i].status) != c.status
    ensures Filter(data, c) == []
  {
    if data != [] {
      FilterNoStatus(data[1..], c);
    }
  }

  /** A single matching record between two lists that filter to nothing is
      all that survives. */
  lemma FilterAround(before: seq<Employee>, x: Employee, after: seq<Employee>, c: Criteria)
    requires Matches(x, c) && Filter(before, c) == [] && Filter(after, c) == []
    ensures Filter(before + [x] + after, c) == [x]
  {
    FilterConcat(before + [x], after, c);
    FilterConcat(before, [x], c);
  }

  lemma FilterNoInactive(data: seq<Employee>)
    requires forall i | 0 <= i < |data| :: data[i].status != Inactive
    ensures Filter(data, Criteria("", "", "Inactive")) == []
  {
    forall i | 0 <= i < |data| ensures StatusText(data[i].status) != "Inactive" {
      StatusTextInjective(data[i].status, Inactive);
    }
    FilterNoStatus(data, Criteria("", "", "Inactive"));
  }

  lemma SplitAround<T>(s: seq<T>, k: nat)
    requires k < |s|
    ensures s == s[..k] + [s[k]] + s[k + 1..]
  {
  }

  /** A list whose only inactive record is at `k` filters to that record
      under the status filter "Inactive". */
  lemma FilterSingleInactive(rows: seq<Employee>, k: nat)
    requires k < |rows| && rows[k].status == Inactive
    requires forall i | 0 <= i < |rows| && i != k :: rows[i].status != Inactive
    ensures Filter(rows, Criteria("", "", "Inactive")) == [rows[k]]
  {
    var c := Criteria("", "", "Inactive");
    var before, after := rows[..k], rows[k + 1..];
    SplitAround(rows, k);
    FilterNoInactive(before);
    assert forall i | 0 <= i < |after| :: after[i] == rows[k + 1 + i];
    FilterNoInactive(after);
    assert Matches(rows[k], c);
    FilterAround(before, rows[k], after, c);
  }

  /** Filtering the filtered list again with the same inputs changes nothing. */
  lemma {:induction false} FilterIdempotent(data: seq<Employee>, c: Criteria)
    ensures Filter(Filter(data, c), c) == Filter(data, c)
  {
    if data != [] {
      FilterIdempotent(data[1..], c);
    }
  }

  // ---------------------------------------------------------------------------
  // sortedData

  /** The value the comparator compares: string fields lower-cased, numeric
      fields as numbers. */
  datatype SortKey = NumKey(n: nat) | StrKey(s: string)

  function KeyOf(e: Employee, f: SortField): (k: SortKey)
    ensures k.NumKey? <==> f == IdField || f == SalaryField
    ensures k.StrKey? ==> forall i :: 0 <= i < |k.s| ==> !IsUpper(k.s[i])
  {
    match f
    case IdField => NumKey(e.id)
    case NameField => StrKey(ToLower(e.name))
    case EmailField => StrKey(ToLower(e.email))
    case DepartmentField => StrKey(ToLower(e.department))
    case PositionField => StrKey(ToLower(e.position))
    case SalaryField => NumKey(e.salary)
    case HireDateField => StrKey(ToLower(e.hireDate))
    case StatusField => StrKey(ToLower(StatusText(e.status)))
  }

  /** JavaScript `<` on two keys of one field (numbers numerically, strings
      character by character). The two kinds never meet, as both keys come from the same
      field; numbers are put first only to make the order total. */
  predicate KeyLess(a: SortKey, b: SortKey) {
    match (a, b)
    case (NumKey(x), NumKey(y)) => x < y
    case (StrKey(x), StrKey(y)) => StrLess(x, y)
    case (NumKey(_), StrKey(_)) => true
    case (StrKey(_), NumKey(_)) => false
  }

  lemma KeyLessIrreflexive(a: SortKey)
    ensures !KeyLess(a, a)
  {
    if a.StrKey? { StrLessIrreflexive(a.s); }
  }

  lemma KeyLessTransitive(a: SortKey, b: SortKey, c: SortKey)
    requires KeyLess(a, b) && KeyLess(b, c)
    ensures KeyLess(a, c)
  {
    if a.StrKey? && b.StrKey? && c.StrKey? { StrLessTransitive(a.s, b.s, c.s); }
  }

  lemma KeyLessAsymmetric(a: SortKey, b: SortKey)
    ensures !(KeyLess(a, b) && KeyLess(b, a))
  {
    if KeyLess(a, b) && KeyLess(b, a) {
      KeyLessTransitive(a, b, a);
      KeyLessIrreflexive(a);
    }
  }

  lemma KeyLessTotal(a: SortKey, b: SortKey)
    requires a != b
    ensures KeyLess(a, b) || KeyLess(b, a)
  {
    if a.StrKey? && b.StrKey? { StrLessTotal(a.s, b.s); }
  }

  /** The comparator passed to `sort`: -1, 1 or 0, with `desc` swapping -1 and
      1 but keeping 0 on ties. */
  function Compare(a: Employee, b: Employee, f: SortField, o: SortOrder): (r: int)
    ensures r == -1 || r == 0 || r == 1
    ensures r < 0 <==> if o == Asc then KeyLess(KeyOf(a, f), KeyOf(b, f)) else KeyLess(KeyOf(b, f), KeyOf(a, f))
  {
    var ka, kb := KeyOf(a, f), KeyOf(b, f);
    KeyLessAsymmetric(ka, kb);
    if KeyLess(ka, kb) then (if o == Asc then -1 else 1)
    else if KeyLess(kb, ka) then (if o == Asc then 1 else -1)
    else 0
  }

  /** Key `ka` may come before key `kb` in a list sorted in order `o`:
      non-decreasing for `Asc`, non-increasing for `Desc`. */
  predicate InOrder(ka: SortKey, kb: SortKey, o: SortOrder) {
    if o == Asc then !KeyLess(kb, ka) else !KeyLess(ka, kb)
  }

  /** The comparator is consistent (as ECMA-262 requires of a comparator):
      antisymmetric, zero exactly on equal keys, non-positive exactly when
      the keys are in order. */
  lemma CompareConsistent(a: Employee, b: Employee, f: SortField, o: SortOrder)
    ensures Compare(a, b, f, o) == -Compare(b, a, f, o)
    ensures Compare(a, b, f, o) == 0 <==> KeyOf(a, f) == KeyOf(b, f)
    ensures Compare(a, b, f, o) <= 0 <==> InOrder(KeyOf(a, f), KeyOf(b, f), o)
  {
    var ka, kb := KeyOf(a, f), KeyOf(b, f);
    KeyLessIrreflexive(ka);
    if ka != kb {
      KeyLessTotal(ka, kb);
      if KeyLess(ka, kb) && KeyLess(kb, ka) {
        KeyLessTransitive(ka, kb, ka);
      }
    }
  }

  lemma InOrderTransitive(a: SortKey, b: SortKey, c: SortKey, o: SortOrder)
    requires InOrder(a, b, o) && InOrder(b, c, o)
    ensures InOrder(a, c, o)
  {
    if a != b && b != c {
      KeyLessTotal(a, b);
      KeyLessTotal(b, c);
      if o == Asc && KeyLess(c, a) { KeyLessTransitive(a, b, c); KeyLessTransitive(c, a, c); KeyLessIrreflexive(c); }
      if o == Desc && KeyLess(a, c) { KeyLessTransitive(c, b, a); KeyLessTransitive(a, c, a); KeyLessIrreflexive(a); }
    }
  }

  lemma InOrderAntisymmetric(a: SortKey, b: SortKey, o: SortOrder)
    requires InOrder(a, b, o) && InOrder(b, a, o)
    ensures a == b
  {
    if a != b { KeyLessTotal(a, b); }
  }

  /** Sorted on field `f` in order `o`. */
  predicate Sorted(r: seq<Employee>, f: SortField, o: SortOrder) {
    forall i, j :: 0 <= i < j < |r| ==> InOrder(KeyOf(r[i], f), KeyOf(r[j], f), o)
  }

  /** The records of `s` whose key is `k`, in their order in `s`. */
  function WithKey(s: seq<Employee>, f: SortField, k: SortKey): (r: seq<Employee>)
    ensures forall e :: e in r <==> e in s && KeyOf(e, f) == k
  {
    if s == [] then []
    else if KeyOf(s[0], f) == k then [s[0]] + WithKey(s[1..], f, k)
    else WithKey(s[1..], f, k)
  }

  /** Records with equal keys appear in `r` in the same relative order as in `s`. */
  ghost predicate Stable(r: seq<Employee>, s: seq<Employee>, f: SortField) {
    forall k :: WithKey(r, f, k) == WithKey(s, f, k)
  }

  /** Inserts `x` into `t` before the first record it does not compare above. */
  function Insert(x: Employee, t: seq<Employee>, f: SortField, o: SortOrder): (r: seq<Employee>)
    ensures multiset(r) == multiset(t) + multiset{x}
  {
    if t == [] then [x]
    else if Compare(x, t[0], f, o) <= 0 then [x] + t
    else
      assert t == [t[0]] + t[1..];
      [t[0]] + Insert(x, t[1..], f, o)
  }

  /** `[...filteredData].sort(comparator)`, as a stable insertion sort: the
      2019 and later editions of ECMA-262 require `Array.prototype.sort` to be
      stable, and StableSortUnique shows that a stable sort has only one
      possible result. */
  function SortBy(s: seq<Employee>, f: SortField, o: SortOrder): (r: seq<Employee>)
    ensures multiset(r) == multiset(s)
  {
    if s == [] then []
    else
      assert s == [s[0]] + s[1..];
      Insert(s[0], SortBy(s[1..], f, o), f, o)
  }

  lemma SortedTail(r: seq<Employee>, f: SortField, o: SortOrder)
    requires r != [] && Sorted(r, f, o)
    ensures Sorted(r[1..], f, o)
  {
    forall i, j | 0 <= i < j < |r| - 1
      ensures InOrder(KeyOf(r[1..][i], f), KeyOf(r[1..][j], f), o)
    {
      assert r[1..][i] == r[i + 1] && r[1..][j] == r[j + 1];
    }
  }

  lemma SortedCons(h: Employee, u: seq<Employee>, f: SortField, o: SortOrder)
    requires Sorted(u, f, o)
    requires forall y :: y in u ==> InOrder(KeyOf(h, f), KeyOf(y, f), o)
    ensures Sorted([h] + u, f, o)
  {
    var r := [h] + u;
    forall i, j | 0 <= i < j < |r| ensures InOrder(KeyOf(r[i], f), KeyOf(r[j], f), o) {
      assert r[j] == u[j - 1];
      if i > 0 { assert r[i] == u[i - 1]; }
    }
  }

  lemma {:induction false} InsertSorted(x: Employee, t: seq<Employee>, f: SortField, o: SortOrder)
    requires Sorted(t, f, o)
    ensures Sorted(Insert(x, t, f, o), f, o)
  {
    if t != [] {
      CompareConsistent(x, t[0], f, o);
      if Compare(x, t[0], f, o) <= 0 {
        forall y | y in t ensures InOrder(KeyOf(x, f), KeyOf(y, f), o) {
          var j :| 0 <= j < |t| && t[j] == y;
          if j > 0 { InOrderTransitive(KeyOf(x, f), KeyOf(t[0], f), KeyOf(y, f), o); }
        }
        SortedCons(x, t, f, o);
      } else {
        SortedTail(t, f, o);
        InsertSorted(x, t[1..], f, o);
        var u := Insert(x, t[1..], f, o);
        forall y | y in u ensures InOrder(KeyOf(t[0], f), KeyOf(y, f), o) {
          assert y in multiset(u);
          if y != x {
            assert y in t[1..];
            var j :| 1 <= j < |t| && t[j] == y;
          }
        }
        SortedCons(t[0], u, f, o);
      }
    }
  }

  lemma WithKeyCons(h: Employee, u: seq<Employee>, f: SortField, k: SortKey)
    ensures WithKey([h] + u, f, k) == (if KeyOf(h, f) == k then [h] else []) + WithKey(u, f, k)
  {
    assert ([h] + u)[1..] == u;
  }

  lemma InsertAfterHead(x: Employee, t: seq<Employee>, f: SortField, o: SortOrder)
    requires t != [] && Compare(x, t[0], f, o) > 0
    ensures Insert(x, t, f, o) == [t[0]] + Insert(x, t[1..], f, o)
    ensures KeyOf(t[0], f) != KeyOf(x, f)
  {
    CompareConsistent(x, t[0], f, o);
  }

  /** The inductive step of InsertWithKey: a head whose key differs from
      `x`'s can be put in front of either side. */
  lemma WithKeyBehindHead(x: Employee, h: Employee, u: seq<Employee>, rest: seq<Employee>, f: SortField, k: SortKey)
    requires KeyOf(h, f) != KeyOf(x, f)
    requires WithKey(u, f, k) == (if KeyOf(x, f) == k then [x] else []) + WithKey(rest, f, k)
    ensures WithKey([h] + u, f, k) == (if KeyOf(x, f) == k then [x] else []) + WithKey([h] + rest, f, k)
  {
    WithKeyCons(h, u, f, k);
    WithKeyCons(h, rest, f, k);
  }

  lemma {:induction false} InsertWithKey(x: Employee, t: seq<Employee>, f: SortField, o: SortOrder, k: SortKey)
    ensures WithKey(Insert(x, t, f, o), f, k) == (if KeyOf(x, f) == k then [x] else []) + WithKey(t, f, k)
  {
    if t == [] {
      WithKeyCons(x, [], f, k);
    } else if Compare(x, t[0], f, o) <= 0 {
      WithKeyCons(x, t, f, k);
    } else {
      InsertWithKey(x, t[1..], f, o, k);
      InsertAfterHead(x, t, f, o);
      WithKeyBehindHead(x, t[0], Insert(x, t[1..], f, o), t[1..], f, k);
      assert [t[0]] + t[1..] == t;
    }
  }

  /** The sorted list is a permutation of the filtered list, ordered by the
      key (non-decreasing for `Asc`, non-increasing for `Desc`), and records
      with equal keys keep their filtered-list order in both directions. */
  lemma {:induction false} SortByCorrect(s: seq<Employee>, f: SortField, o: SortOrder)
    ensures multiset(SortBy(s, f, o)) == multiset(s)
    ensures Sorted(SortBy(s, f, o), f, o)
    ensures Stable(SortBy(s, f, o), s, f)
  {
    if s != [] {
      SortByCorrect(s[1..], f, o);
      InsertSorted(s[0], SortBy(s[1..], f, o), f, o);
      forall k ensures WithKey(SortBy(s, f, o), f, k) == WithKey(s, f, k) {
        InsertWithKey(s[0], SortBy(s[1..], f, o), f, o, k);
      }
    }
  }

  lemma WithKeyHasHead(s: seq<Employee>, f: SortField)
    requires s != []
    ensures WithKey(s, f, KeyOf(s[0], f)) != []
  {
  }

  /** Two non-empty sorted lists with the same records per key start with
      records of the same key. */
  lemma HeadKeysEqual(a: seq<Employee>, b: seq<Employee>, f: SortField, o: SortOrder)
    requires a != [] && b != []
    requires Sorted(a, f, o) && Sorted(b, f, o)
    requires Stable(a, b, f)
    ensures KeyOf(a[0], f) == KeyOf(b[0], f)
  {
    var ka, kb := KeyOf(a[0], f), KeyOf(b[0], f);
    assert a[0] in WithKey(b, f, ka) by { assert a[0] in WithKey(a, f, ka); }
    assert b[0] in WithKey(a, f, kb) by { assert b[0] in WithKey(b, f, kb); }
    var j :| 0 <= j < |b| && b[j] == a[0];
    var i :| 0 <= i < |a| && a[i] == b[0];
    KeyLessIrreflexive(ka);
    KeyLessIrreflexive(kb);
    assert InOrder(kb, ka, o) by { if j > 0 { assert InOrder(KeyOf(b[0], f), KeyOf(b[j], f), o); } }
    assert InOrder(ka, kb, o) by { if i > 0 { assert InOrder(KeyOf(a[0], f), KeyOf(a[i], f), o); } }
    InOrderAntisymmetric(ka, kb, o);
  }

  /** Removing equal heads keeps two lists' per-key orders equal. */
  lemma StableTails(a: seq<Employee>, b: seq<Employee>, f: SortField)
    requires a != [] && b != [] && a[0] == b[0]
    requires Stable(a, b, f)
    ensures Stable(a[1..], b[1..], f)
  {
    forall k ensures WithKey(a[1..], f, k) == WithKey(b[1..], f, k) {
      assert WithKey(a, f, k) == WithKey(b, f, k);
      if k == KeyOf(a[0], f) {
        assert WithKey(a, f, k) == [a[0]] + WithKey(a[1..], f, k);
        assert WithKey(b, f, k) == [b[0]] + WithKey(b[1..], f, k);
        assert WithKey(a[1..], f, k) == WithKey(a, f, k)[1..];
      } else {
        assert WithKey(a, f, k) == WithKey(a[1..], f, k);
        assert WithKey(b, f, k) == WithKey(b[1..], f, k);
      }
    }
  }

  /** Two lists sorted on the same field and order, whose equal-key records
      come in the same order, are equal. */
  lemma {:induction false} SortedStableUnique(a: seq<Employee>, b: seq<Employee>, f: SortField, o: SortOrder)
    requires Sorted(a, f, o) && Sorted(b, f, o)
    requires Stable(a, b, f)
    ensures a == b
    decreases |a|
  {
    if a == [] {
      if b != [] {
        WithKeyHasHead(b, f);
        assert false;
      }
    } else if b == [] {
      WithKeyHasHead(a, f);
      assert false;
    } else {
      HeadKeysEqual(a, b, f, o);
      var k := KeyOf(a[0], f);
      assert a[0] == b[0] by {
        assert WithKey(a, f, k)[0] == a[0];
        assert WithKey(b, f, k)[0] == b[0];
        assert WithKey(a, f, k) == WithKey(b, f, k);
      }
      StableTails(a, b, f);
      SortedTail(a, f, o);
      SortedTail(b, f, o);
      SortedStableUnique(a[1..], b[1..], f, o);
      assert a == [a[0]] + a[1..] && b == [b[0]] + b[1..];
    }
  }

  /** Any stable sort of `s` on `f` in order `o` returns SortBy(s, f, o): the
      model's insertion sort is the only result a conforming engine can give. */
  lemma StableSortUnique(s: seq<Employee>, r: seq<Employee>, f: SortField, o: SortOrder)
    requires Sorted(r, f, o) && Stable(r, s, f)
    ensures r == SortBy(s, f, o)
  {
    SortByCorrect(s, f, o);
    SortedStableUnique(r, SortBy(s, f, o), f, o);
  }

  // ---------------------------------------------------------------------------
  // paginatedData, totalPages, footer, page-number window

  /** `Math.ceil(count / perPage)`: the fewest pages of `perPage` records that
      hold `count` records. */
  function TotalPages(count: nat, perPage: nat): (t: nat)
    requires perPage >= 1
    ensures count <= t * perPage
    ensures t == 0 || (t - 1) * perPage < count
    ensures t == 0 <==> count == 0
  {
    var q, r := (count + perPage - 1) / perPage, (count + perPage - 1) % perPage;
    assert count + perPage - 1 == q * perPage + r;
    assert q * perPage - perPage == (q - 1) * perPage;
    q
  }

  /** `s.slice(start, end)` for non-negative bounds: out-of-range bounds are
      cut back to the length, and an empty range gives an empty list. */
  function Slice(s: seq<Employee>, start: nat, end: nat): (r: seq<Employee>)
    ensures |r| == Max(0, Min(end, |s|) - Min(start, |s|))
    ensures forall i :: 0 <= i < |r| ==> r[i] == s[start + i]
  {
    var from, to := Min(start, |s|), Min(end, |s|);
    if from < to then s[from..to] else []
  }

  /** `paginatedData`: the records of page `page` (counting from 1). */
  function Paginate(s: seq<Employee>, page: nat, perPage: nat): (r: seq<Employee>)
    requires page >= 1
    ensures |r| == Min(perPage, Max(0, |s| - (page - 1) * perPage))
    ensures forall i :: 0 <= i < |r| ==> r[i] == s[(page - 1) * perPage + i]
  {
    var start := (page - 1) * perPage;
    Slice(s, start, start + perPage)
  }

  /** Pages 1 to k, one after the other. */
  function PagesUpTo(s: seq<Employee>, perPage: nat, k: nat): seq<Employee> {
    if k == 0 then [] else PagesUpTo(s, perPage, k - 1) + Paginate(s, k, perPage)
  }

  /** Page `k` continues the first `k - 1` pages: it is the stretch of `s`
      between their end and the end of page `k`. */
  lemma PageExtendsPrefix(s: seq<Employee>, perPage: nat, k: nat)
    requires k >= 1
    ensures s[..Min(k * perPage, |s|)] == s[..Min((k - 1) * perPage, |s|)] + Paginate(s, k, perPage)
  {
    var start := (k - 1) * perPage;
    var end := Min(k * perPage, |s|);
    assert k * perPage == start + perPage;
    var page := Paginate(s, k, perPage);
    if start < |s| {
      assert page == s[start..end];
      assert s[..end] == s[..start] + s[start..end];
    } else {
      assert page == [];
    }
  }

  lemma {:induction false} PagesUpToPrefix(s: seq<Employee>, perPage: nat, k: nat)
    ensures PagesUpTo(s, perPage, k) == s[..Min(k * perPage, |s|)]
  {
    if k > 0 {
      PagesUpToPrefix(s, perPage, k - 1);
      PageExtendsPrefix(s, perPage, k);
    }
  }

  /** Pages 1 to totalPages, concatenated, give back the whole sorted list. */
  lemma PagesCoverAll(s: seq<Employee>, perPage: nat)
    requires perPage >= 1
    ensures PagesUpTo(s, perPage, TotalPages(|s|, perPage)) == s
  {
    var t := TotalPages(|s|, perPage);
    PagesUpToPrefix(s, perPage, t);
    assert s[..|s|] == s;
  }

  lemma MulAtLeast(d: int, p: int)
    requires d >= 1 && p >= 0
    ensures d * p >= p
  {
    assert d * p == (d - 1) * p + p;
  }

  lemma MulZero(d: int, p: int)
    requires p >= 1 && -p < d * p < p
    ensures d == 0
  {
    if d >= 1 {
      MulAtLeast(d, p);
      assert false;
    } else if d <= -1 {
      MulAtLeast(-d, p);
      assert false;
    }
  }

  /** Euclidean division has only one quotient and remainder. */
  lemma ModUnique(n: nat, p: nat, q: nat, r: nat)
    requires p >= 1 && n == q * p + r && r < p
    ensures n % p == r
  {
    var q', r' := n / p, n % p;
    assert (q - q') * p == r' - r;
    MulZero(q - q', p);
  }

  /** The last page holds `count % perPage` records, or `perPage` when that
      divides `count`. */
  lemma LastPageSize(s: seq<Employee>, perPage: nat)
    requires perPage >= 1 && |s| > 0
    ensures |Paginate(s, TotalPages(|s|, perPage), perPage)|
            == if |s| % perPage == 0 then perPage else |s| % perPage
  {
    var t := TotalPages(|s|, perPage);
    var size := |s| - (t - 1) * perPage;
    assert (t - 1) * perPage + perPage == t * perPage;
    if size < perPage {
      ModUnique(|s|, perPage, t - 1, size);
    } else {
      ModUnique(|s|, perPage, t, 0);
    }
  }

  /** The footer's "Showing X to Y of N": X. */
  function ShowingFrom(page: nat, perPage: nat): (x: int)
    ensures page >= 1 ==> x >= 1
    ensures x - 1 == (page - 1) * perPage
  {
    (page - 1) * perPage + 1
  }

  /** The footer's "Showing X to Y of N": Y. */
  function ShowingTo(page: nat, perPage: nat, count: nat): (y: int)
    ensures y <= count && y <= page * perPage
    ensures y == count || y == page * perPage
  {
    Min(page * perPage, count)
  }

  /** Only page 1 starts at record 1. */
  lemma FirstRecordOnFirstPage(page: nat, perPage: nat)
    ensures perPage >= 1 ==> (ShowingFrom(page, perPage) == 1 <==> page == 1)
  {
    if perPage >= 1 && page != 1 {
      if page > 1 {
        MulAtLeast(page - 1, perPage);
      }
    }
  }

  /** On an existing page the footer names a non-empty range of records that
      is exactly as long as the page. */
  lemma FooterMatchesPage(s: seq<Employee>, page: nat, perPage: nat)
    requires perPage >= 1 && 1 <= page <= TotalPages(|s|, perPage)
    ensures 1 <= ShowingFrom(page, perPage) <= ShowingTo(page, perPage, |s|) <= |s|
    ensures ShowingTo(page, perPage, |s|) - ShowingFrom(page, perPage) + 1
            == |Paginate(s, page, perPage)|
  {
    var t := TotalPages(|s|, perPage);
    assert (page - 1) * perPage <= (t - 1) * perPage;
    assert (page - 1) * perPage + perPage == page * perPage;
  }

  /** Past the last page (reachable, since narrowing the filters keeps the
      page number) the page is empty and the footer's X exceeds its Y. */
  lemma StalePageIsEmpty(s: seq<Employee>, page: nat, perPage: nat)
    requires perPage >= 1 && page >= 1 && page > TotalPages(|s|, perPage)
    ensures Paginate(s, page, perPage) == []
    ensures ShowingFrom(page, perPage) > ShowingTo(page, perPage, |s|)
  {
    var t := TotalPages(|s|, perPage);
    assert t * perPage <= (page - 1) * perPage;
  }

  /** The number on the i-th button of the page-number window. */
  function PageButton(i: nat, current: int, total: nat): (n: int)
    ensures i < Min(5, total) ==> 1 <= n <= total
  {
    if total <= 5 then i + 1
    else if current <= 3 then i + 1
    else if current >= total - 2 then total - 4 + i
    else current - 2 + i
  }

  /** `Array.from({ length: Math.min(5, totalPages) }, (_, i) => pageNumber)`:
      at most five consecutive page numbers, all of them existing pages. */
  function PageWindow(current: int, total: nat): (w: seq<int>)
    ensures |w| == Min(5, total)
    ensures forall i :: 0 < i < |w| ==> w[i] == w[i - 1] + 1
    ensures forall i :: 0 <= i < |w| ==> 1 <= w[i] <= total
  {
    seq(Min(5, total), i requires 0 <= i => PageButton(i, current, total))
  }

  /** The window shows the current page when it exists; with more than five
      pages it is centred on it except near either end. */
  lemma PageWindowShowsCurrent(current: int, total: nat)
    requires 1 <= current <= total
    ensures current in PageWindow(current, total)
    ensures total > 5 && 3 < current < total - 2 ==> PageWindow(current, total)[2] == current
  {
    var w := PageWindow(current, total);
    var i := current - w[0];
    assert 0 <= i < |w| && w[i] == current;
  }
}
