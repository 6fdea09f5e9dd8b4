/**
 * The employee record (Program.cs, class Employee) and the field edits an
 * update applies to it.
 */
module Records {
  import opened Wrappers

  /** A calendar date without time of day. */
  datatype Date = Date(year: int, month: int, day: int)

  predicate IsLeapYear(y: int)
  {
    y % 4 == 0 && (y % 100 != 0 || y % 400 == 0)
  }

  function DaysInMonth(y: int, m: int): (n: int)
    requires 1 <= m <= 12
    ensures 28 <= n <= 31
    ensures n == 29 <==> m == 2 && IsLeapYear(y)
  {
    if m == 2 then (if IsLeapYear(y) then 29 else 28)
    else if m == 4 || m == 6 || m == 9 || m == 11 then 30
    else 31
  }

  /** The dates a DateTime can hold: years 1 to 9999 of the proleptic Gregorian calendar. */
  predicate IsValidDate(d: Date)
  {
    1 <= d.year <= 9999 && 1 <= d.month <= 12 && 1 <= d.day <= DaysInMonth(d.year, d.month)
  }

  type ValidDate = d: Date | IsValidDate(d) witness Date(1, 1, 1)

  /**
   * One employee. Salary is a whole amount (Program.cs keeps a double); the
   * identifier is whatever the store assigned or the file held.
   */
  datatype Employee = Employee(
    id: int,
    name: string,
    dept: string,
    position: string,
    salary: int,
    hired: ValidDate)

  /**
   * What the operator answered to the five update prompts. A text answer that
   * is empty keeps the current value; `salary` and `hired` are None when the
   * answer did not parse, was empty or (for the salary) was negative, which also
   * keeps the current value.
   */
  datatype Edit = Edit(
    name: string,
    dept: string,
    position: string,
    salary: Option<nat>,
    hired: Option<ValidDate>)

  /** The edit that changes nothing: every prompt answered with an empty line. */
  const NoEdit: Edit := Edit("", "", "", None, None)

  /** The prompt's answer, or `current` when the answer is empty. */
  function GetInput(answer: string, current: string): (r: string)
    ensures answer != "" ==> r == answer
    ensures answer == "" ==> r == current
    ensures r == "" <==> answer == "" && current == ""
  {
    if answer == "" then current else answer
  }

  function KeepIfNone<T>(answer: Option<T>, current: T): T
  {
    match answer
    case Some(v) => v
    case None => current
  }

  /** The record after the operator's answers are applied to it; the identifier never changes. */
  function ApplyEdit(e: Employee, edit: Edit): (r: Employee)
    ensures r.id == e.id
    ensures r.name == (if edit.name == "" then e.name else edit.name)
    ensures r.dept == (if edit.dept == "" then e.dept else edit.dept)
    ensures r.position == (if edit.position == "" then e.position else edit.position)
    ensures r.salary == (if edit.salary.Some? then edit.salary.value else e.salary)
    ensures r.hired == (if edit.hired.Some? then edit.hired.value else e.hired)
  {
    e.(name := GetInput(edit.name, e.name),
       dept := GetInput(edit.dept, e.dept),
       position := GetInput(edit.position, e.position),
       salary := KeepIfNone(edit.salary, e.salary),
       hired := KeepIfNone(edit.hired, e.hired))
  }

  /** Answering every prompt with an empty line leaves the record as it was. */
  lemma EmptyEditKeepsRecord(e: Employee)
    ensures ApplyEdit(e, NoEdit) == e
  {
  }
}
