/** The closed enumerations Make.java, Department.java and Employee.java:
    constant names, display names and the employee-to-department table,
    plus Enum.valueOf applied to an upper-cased token. */
module Catalog {
  import opened Options
  import opened Text

  datatype Make = FORD | CHEVY | TOYOTA | HONDA

  datatype Department =
    | COMPUTER_SCIENCE
    | ELECTRICAL_ENGINEERING
    | INFORMATION_TECHNOLOGY_AND_INFORMATICS
    | MATHEMATICS
    | BUSINESS_ANALYTICS_AND_INFORMATION_TECHNOLOGY

  datatype Employee = PATEL | LIM | ZIMNES | HARPER | KAUR | TAYLOR | RAMESH | CERAVOLO

  /** Make.name(). */
  function MakeName(m: Make): string
  {
    match m
    case FORD => "FORD"
    case CHEVY => "CHEVY"
    case TOYOTA => "TOYOTA"
    case HONDA => "HONDA"
  }

  /** Employee.name(). */
  function EmployeeName(e: Employee): string
  {
    match e
    case PATEL => "PATEL"
    case LIM => "LIM"
    case ZIMNES => "ZIMNES"
    case HARPER => "HARPER"
    case KAUR => "KAUR"
    case TAYLOR => "TAYLOR"
    case RAMESH => "RAMESH"
    case CERAVOLO => "CERAVOLO"
  }

  /** Department.getDisplayName(). */
  function DisplayName(d: Department): string
  {
    match d
    case COMPUTER_SCIENCE => "Computer Science"
    case ELECTRICAL_ENGINEERING => "Electrical Engineering"
    case INFORMATION_TECHNOLOGY_AND_INFORMATICS => "Information Technology and Informatics"
    case MATHEMATICS => "Mathematics"
    case BUSINESS_ANALYTICS_AND_INFORMATION_TECHNOLOGY => "Business Analytics and Information Technology"
  }

  /** Employee.getDepartment(). */
  function DepartmentOf(e: Employee): Department
  {
    match e
    case PATEL => COMPUTER_SCIENCE
    case LIM => ELECTRICAL_ENGINEERING
    case ZIMNES => COMPUTER_SCIENCE
    case HARPER => ELECTRICAL_ENGINEERING
    case KAUR => INFORMATION_TECHNOLOGY_AND_INFORMATICS
    case TAYLOR => MATHEMATICS
    case RAMESH => MATHEMATICS
    case CERAVOLO => BUSINESS_ANALYTICS_AND_INFORMATION_TECHNOLOGY
  }

  /** Make.valueOf(tok.toUpperCase()); None is the IllegalArgumentException. */
  function ParseMake(tok: string): (r: Option<Make>)
    ensures r.Some? ==> ToUpper(tok) == MakeName(r.value)
    ensures r.None? ==> forall m: Make :: ToUpper(tok) != MakeName(m)
  {
    var u := ToUpper(tok);
    if u == "FORD" then Some(FORD)
    else if u == "CHEVY" then Some(CHEVY)
    else if u == "TOYOTA" then Some(TOYOTA)
    else if u == "HONDA" then Some(HONDA)
    else None
  }

  /** Employee.valueOf(tok.toUpperCase()); None is the IllegalArgumentException. */
  function ParseEmployee(tok: string): (r: Option<Employee>)
    ensures r.Some? ==> ToUpper(tok) == EmployeeName(r.value)
    ensures r.None? ==> forall e: Employee :: ToUpper(tok) != EmployeeName(e)
  {
    var u := ToUpper(tok);
    if u == "PATEL" then Some(PATEL)
    else if u == "LIM" then Some(LIM)
    else if u == "ZIMNES" then Some(ZIMNES)
    else if u == "HARPER" then Some(HARPER)
    else if u == "KAUR" then Some(KAUR)
    else if u == "TAYLOR" then Some(TAYLOR)
    else if u == "RAMESH" then Some(RAMESH)
    else if u == "CERAVOLO" then Some(CERAVOLO)
    else None
  }

  /** The position of a department in the fixed section order of printByDept. */
  function SectionRank(d: Department): nat
  {
    match d
    case BUSINESS_ANALYTICS_AND_INFORMATION_TECHNOLOGY => 0
    case COMPUTER_SCIENCE => 1
    case ELECTRICAL_ENGINEERING => 2
    case INFORMATION_TECHNOLOGY_AND_INFORMATICS => 3
    case MATHEMATICS => 4
  }

  const SectionOrder: seq<Department> := [
    BUSINESS_ANALYTICS_AND_INFORMATION_TECHNOLOGY, COMPUTER_SCIENCE,
    ELECTRICAL_ENGINEERING, INFORMATION_TECHNOLOGY_AND_INFORMATICS, MATHEMATICS]

  // ----- properties -----

  lemma UpperOfUpper(s: string)
    requires forall i :: 0 <= i < |s| ==> 'A' <= s[i] <= 'Z'
    ensures ToUpper(s) == s
  {
  }

  /** valueOf accepts each constant's own name. */
  lemma ParseNames(m: Make, e: Employee)
    ensures ParseMake(MakeName(m)) == Some(m)
    ensures ParseEmployee(EmployeeName(e)) == Some(e)
  {
    UpperOfUpper(MakeName(m));
    UpperOfUpper(EmployeeName(e));
  }

  /** Upper-casing makes the lookup case-insensitive. */
  lemma ParseIgnoresCase(a: string, b: string)
    requires ToUpper(a) == ToUpper(b)
    ensures ParseMake(a) == ParseMake(b) && ParseEmployee(a) == ParseEmployee(b)
  {
  }

  lemma ParseMakeSample()
    ensures ParseMake("ford") == Some(FORD) && ParseMake("Toyota") == Some(TOYOTA)
    ensures ParseMake("BMW") == None
  {
    assert ToUpper("ford") == "FORD";
    assert ToUpper("Toyota") == "TOYOTA";
    assert ToUpper("BMW") == "BMW";
  }

  /** The department table of Employee.java. */
  lemma EmployeeDepartments()
    ensures DepartmentOf(PATEL) == COMPUTER_SCIENCE && DepartmentOf(ZIMNES) == COMPUTER_SCIENCE
    ensures DepartmentOf(LIM) == ELECTRICAL_ENGINEERING && DepartmentOf(HARPER) == ELECTRICAL_ENGINEERING
    ensures DepartmentOf(TAYLOR) == MATHEMATICS && DepartmentOf(RAMESH) == MATHEMATICS
    ensures DepartmentOf(KAUR) == INFORMATION_TECHNOLOGY_AND_INFORMATICS
    ensures DepartmentOf(CERAVOLO) == BUSINESS_ANALYTICS_AND_INFORMATION_TECHNOLOGY
  {
  }

  /** Every department has an employee. */
  lemma EveryDepartmentStaffed(d: Department)
    ensures exists e: Employee :: DepartmentOf(e) == d
  {
    match d
    case COMPUTER_SCIENCE => assert DepartmentOf(PATEL) == d;
    case ELECTRICAL_ENGINEERING => assert DepartmentOf(LIM) == d;
    case INFORMATION_TECHNOLOGY_AND_INFORMATICS => assert DepartmentOf(KAUR) == d;
    case MATHEMATICS => assert DepartmentOf(TAYLOR) == d;
    case BUSINESS_ANALYTICS_AND_INFORMATION_TECHNOLOGY => assert DepartmentOf(CERAVOLO) == d;
  }

  /** Distinct departments have distinct display names. */
  lemma DisplayNamesDistinct(a: Department, b: Department)
    ensures DisplayName(a) == DisplayName(b) <==> a == b
  {
    if a != b {
      assert DisplayName(a)[0] != DisplayName(b)[0] || |DisplayName(a)| != |DisplayName(b)|;
    }
  }

  /** First letter of each display name; the five are distinct. */
  function Initial(d: Department): char
  {
    match d
    case BUSINESS_ANALYTICS_AND_INFORMATION_TECHNOLOGY => 'B'
    case COMPUTER_SCIENCE => 'C'
    case ELECTRICAL_ENGINEERING => 'E'
    case INFORMATION_TECHNOLOGY_AND_INFORMATICS => 'I'
    case MATHEMATICS => 'M'
  }

  lemma InitialOf(d: Department)
    ensures |DisplayName(d)| > 0 && DisplayName(d)[0] == Initial(d)
  {
    var n := DisplayName(d);
    match d
    case BUSINESS_ANALYTICS_AND_INFORMATION_TECHNOLOGY => assert n[0] == "Business Analytics"[0];
    case COMPUTER_SCIENCE => assert n == "Computer Science"; assert n[0] == 'C';
    case ELECTRICAL_ENGINEERING => assert n == "Electrical Engineering"; assert n[0] == 'E';
    case INFORMATION_TECHNOLOGY_AND_INFORMATICS => assert n == "Information Technology and Informatics"; assert n[0] == 'I';
    case MATHEMATICS => assert n == "Mathematics"; assert n[0] == 'M';
  }

  /** The lexicographic order of the display names is the fixed section
      order, so sorting by display name groups the sections as printed. */
  lemma DisplayNameOrder(a: Department, b: Department)
    ensures StrCmp(DisplayName(a), DisplayName(b)) < 0 <==> SectionRank(a) < SectionRank(b)
    ensures StrCmp(DisplayName(a), DisplayName(b)) == 0 <==> a == b
  {
    var x, y := DisplayName(a), DisplayName(b);
    StrCmpZero(x, y);
    InitialOf(a);
    InitialOf(b);
    if a != b {
      assert StrCmp(x, y) == Initial(a) as int - Initial(b) as int;
    }
  }

  /** SectionOrder lists each department once, by rank. */
  lemma SectionOrderRanks()
    ensures |SectionOrder| == 5
    ensures forall i :: 0 <= i < 5 ==> SectionRank(SectionOrder[i]) == i
    ensures forall d: Department :: d in SectionOrder
  {
    forall d: Department ensures d in SectionOrder {
      assert SectionOrder[SectionRank(d)] == d;
    }
  }

  /** Make names in lexicographic order: CHEVY < FORD < HONDA < TOYOTA. */
  lemma MakeNameOrder()
    ensures StrCmp(MakeName(CHEVY), MakeName(FORD)) < 0
    ensures StrCmp(MakeName(FORD), MakeName(HONDA)) < 0
    ensures StrCmp(MakeName(HONDA), MakeName(TOYOTA)) < 0
  {
  }
}
