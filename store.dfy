/**
 * The employee store of Program.cs: the ordered list of records, lookup by
 * identifier, the add/update/delete operations and the name search.
 *
 * The list operations are first stated as functions over `seq<Employee>`;
 * the class EmployeeStore at the end changes its list in place and is proved
 * to follow them.
 */
module Store {
  import opened Wrappers
  import opened Text
  import opened Records
  import opened Codec

  // ---------------------------------------------------------------------------
  // Lookup: List<T>.Find with the predicate e.ID == id

  /** The position of the first record with identifier `id`, if any. */
  function FirstIndex(es: seq<Employee>, id: int): (r: Option<nat>)
    ensures r.Some? ==>
      r.value < |es| && es[r.value].id == id &&
      forall j :: 0 <= j < r.value ==> es[j].id != id
    ensures r.None? ==> forall j :: 0 <= j < |es| ==> es[j].id != id
  {
    if es == [] then None
    else if es[0].id == id then Some(0)
    else
      match FirstIndex(es[1..], id)
      case None => None
      case Some(i) => Some(i + 1)
  }

  /** FindEmployeeById: the first record in list order whose identifier is `id`, or None (null). */
  function Find(es: seq<Employee>, id: int): (r: Option<Employee>)
    ensures r.None? <==> forall j :: 0 <= j < |es| ==> es[j].id != id
    ensures r.Some? ==>
      r.value.id == id &&
      exists i :: 0 <= i < |es| && es[i] == r.value &&
        forall j :: 0 <= j < i ==> es[j].id != id
  {
    match FirstIndex(es, id)
    case None => None
    case Some(i) => Some(es[i])
  }

  /** The first match depends only on the identifiers, position by position. */
  lemma {:induction false} FirstIndexSameIds(a: seq<Employee>, b: seq<Employee>, id: int)
    requires |a| == |b|
    requires forall k :: 0 <= k < |a| ==> a[k].id == b[k].id
    ensures FirstIndex(a, id) == FirstIndex(b, id)
  {
    if a != [] && a[0].id != id {
      FirstIndexSameIds(a[1..], b[1..], id);
    }
  }

  // ---------------------------------------------------------------------------
  // Add: ID = Count + 1, appended at the end

  /** The record AddNewEmployee builds: its identifier is the current count plus one. */
  function NewEmployee(es: seq<Employee>, name: string, dept: string, position: string,
                       salary: nat, hired: ValidDate): (e: Employee)
    ensures e.id >= 1
  {
    Employee(|es| + 1, name, dept, position, salary, hired)
  }

  /** Employees.Add of the new record: one record more, at the end, the earlier ones unchanged. */
  function Added(es: seq<Employee>, name: string, dept: string, position: string,
                 salary: nat, hired: ValidDate): (r: seq<Employee>)
    ensures |r| == |es| + 1 && r[..|es|] == es
    ensures r[|es|] == Employee(|es| + 1, name, dept, position, salary, hired)
  {
    es + [NewEmployee(es, name, dept, position, salary, hired)]
  }

  /** Identifiers 1, 2, ..., n in list order: what a store built only by adds holds. */
  predicate DenseIds(es: seq<Employee>)
  {
    forall k :: 0 <= k < |es| ==> es[k].id == k + 1
  }

  /** As long as nothing is deleted, adds keep the identifiers 1..n, so the new one is unused. */
  lemma AddKeepsIdsDense(es: seq<Employee>, name: string, dept: string, position: string,
                         salary: nat, hired: ValidDate)
    requires DenseIds(es)
    ensures DenseIds(Added(es, name, dept, position, salary, hired))
    ensures Find(es, NewEmployee(es, name, dept, position, salary, hired).id).None?
  {
  }

  // ---------------------------------------------------------------------------
  // Delete: List<T>.Remove of the record FindEmployeeById returned

  /** List<T>.IndexOf: the position of the first element equal to `x`. */
  function IndexOf(es: seq<Employee>, x: Employee): (i: nat)
    requires x in es
    ensures i < |es| && es[i] == x && x !in es[..i]
  {
    if es[0] == x then 0
    else
      var i := IndexOf(es[1..], x) + 1;
      assert es[..i] == [es[0]] + es[1..][..i - 1];
      i
  }

  /**
   * List<T>.Remove: drop the first element equal to `x`, keeping the order of
   * the rest; nothing changes when `x` is absent. Records are values here, so
   * equality is equality of fields where Program.cs compares references; the
   * two agree on the only argument the program passes, the first record with
   * the identifier (RemoveFirstIsDeleted).
   */
  function RemoveFirst(es: seq<Employee>, x: Employee): (r: seq<Employee>)
    ensures x !in es ==> r == es
    ensures x in es ==> |r| == |es| - 1
    ensures x in es ==>
      exists i :: 0 <= i < |es| && es[i] == x && x !in es[..i] && r == es[..i] + es[i + 1..]
  {
    if x in es then
      var i := IndexOf(es, x);
      es[..i] + es[i + 1..]
    else es
  }

  /** The list after deleting `id`: the first record with that identifier is gone. */
  function Deleted(es: seq<Employee>, id: int): (r: seq<Employee>)
    ensures FirstIndex(es, id).None? ==> r == es
  {
    match FirstIndex(es, id)
    case None => es
    case Some(i) => es[..i] + es[i + 1..]
  }

  /** Removing the record that Find returned removes exactly the first match. */
  lemma RemoveFirstIsDeleted(es: seq<Employee>, id: int, i: nat)
    requires FirstIndex(es, id) == Some(i)
    ensures RemoveFirst(es, es[i]) == Deleted(es, id)
  {
    assert es[i] !in es[..i] by {
      forall j | 0 <= j < i ensures es[..i][j] != es[i] {
        assert es[j].id != id;
      }
    }
    var k := IndexOf(es, es[i]);
    forall j | 0 <= j < k
      ensures es[j] != es[i]
    {
      assert es[..k][j] == es[j];
    }
    assert k == i;
  }

  /** Deleting an existing identifier drops one record and keeps the others in order. */
  lemma DeleteRemovesFirstMatch(es: seq<Employee>, id: int, i: nat)
    requires FirstIndex(es, id) == Some(i)
    ensures |Deleted(es, id)| == |es| - 1
    ensures forall k :: 0 <= k < i ==> Deleted(es, id)[k] == es[k]
    ensures forall k :: i <= k < |es| - 1 ==> Deleted(es, id)[k] == es[k + 1]
    ensures multiset(Deleted(es, id)) + multiset{es[i]} == multiset(es)
  {
    assert es == es[..i] + [es[i]] + es[i + 1..];
  }

  /**
   * After a delete the identifier is gone only if it was unique: because of
   * Count + 1 identifiers, a second record with the same ID can remain.
   */
  lemma FindAfterDelete(es: seq<Employee>, id: int)
    requires Find(es, id).Some?
    ensures Find(Deleted(es, id), id).None? <==>
      forall j :: 0 <= j < |es| && es[j].id == id ==> Some(j) == FirstIndex(es, id)
  {
    var i := FirstIndex(es, id).value;
    var d := Deleted(es, id);
    DeleteRemovesFirstMatch(es, id, i);
    if j :| 0 <= j < |es| && es[j].id == id && j != i {
      assert d[j - 1] == es[j];
    } else {
      forall k | 0 <= k < |d|
        ensures d[k].id != id
      {
        if k >= i {
          assert d[k] == es[k + 1];
        }
      }
    }
  }

  /** Delete a record and add one: the new record gets the identifier of the last record. */
  lemma DeleteThenAddRepeatsId(es: seq<Employee>, id: int, name: string, dept: string,
                               position: string, salary: nat, hired: ValidDate)
    requires DenseIds(es)
    requires 1 <= id < |es|
    ensures var r := Added(Deleted(es, id), name, dept, position, salary, hired);
      |r| == |es| && r[|r| - 1].id == |es| && r[|r| - 2].id == |es|
  {
    assert es[id - 1].id == id;
    assert FirstIndex(es, id) == Some(id - 1);
    DeleteRemovesFirstMatch(es, id, id - 1);
  }

  // ---------------------------------------------------------------------------
  // Update: the setters applied to the record FindEmployeeById returned

  /** The list after updating `id`: only the first record with that identifier changes. */
  function Updated(es: seq<Employee>, id: int, edit: Edit): (r: seq<Employee>)
    ensures |r| == |es|
    ensures forall k :: 0 <= k < |es| ==>
      r[k] == (if FirstIndex(es, id) == Some(k) then ApplyEdit(es[k], edit) else es[k])
  {
    match FirstIndex(es, id)
    case None => es
    case Some(i) => es[i := ApplyEdit(es[i], edit)]
  }

  /** Looking the identifier up after an update gives the edited record. */
  lemma FindAfterUpdate(es: seq<Employee>, id: int, edit: Edit)
    ensures Find(Updated(es, id, edit), id) ==
      match Find(es, id)
      case None => None
      case Some(x) => Some(ApplyEdit(x, edit))
  {
    FirstIndexSameIds(es, Updated(es, id, edit), id);
  }

  // ---------------------------------------------------------------------------
  // Search: List<T>.FindAll with a case-insensitive substring test on Name

  /** The FindAll predicate: the lower-cased name contains the lower-cased query. */
  function Matches(e: Employee, query: string): (b: bool)
    ensures query == "" ==> b
    ensures b ==> |query| <= |e.name|
  {
    Contains(ToLower(e.name), ToLower(query))
  }

  /** The records whose name contains the query, ignoring case, in list order. */
  function Search(es: seq<Employee>, query: string): (r: seq<Employee>)
    ensures |r| <= |es|
    ensures forall k :: 0 <= k < |r| ==> Matches(r[k], query) && r[k] in es
  {
    if es == [] then []
    else
      var last := es[|es| - 1];
      Search(es[..|es| - 1], query) + (if Matches(last, query) then [last] else [])
  }

  /** The positions of the matching records, in increasing order. */
  function MatchIndices(es: seq<Employee>, query: string): (r: seq<int>)
    ensures forall k :: 0 <= k < |r| ==> 0 <= r[k] < |es|
    ensures forall k, l :: 0 <= k < l < |r| ==> r[k] < r[l]
    ensures forall j :: 0 <= j < |es| ==> (Matches(es[j], query) <==> j in r)
  {
    if es == [] then []
    else
      var n := |es| - 1;
      var prev := MatchIndices(es[..n], query);
      assert forall j :: 0 <= j < n ==> es[..n][j] == es[j];
      prev + (if Matches(es[n], query) then [n] else [])
  }

  /** The search result is exactly the ordered subsequence of matching records. */
  lemma {:induction false} SearchIsOrderedSubsequence(es: seq<Employee>, query: string)
    ensures |MatchIndices(es, query)| == |Search(es, query)|
    ensures forall k :: 0 <= k < |MatchIndices(es, query)| ==>
      Search(es, query)[k] == es[MatchIndices(es, query)[k]]
  {
    if es != [] {
      var n := |es| - 1;
      SearchIsOrderedSubsequence(es[..n], query);
      var idx, r := MatchIndices(es, query), Search(es, query);
      var idx', r' := MatchIndices(es[..n], query), Search(es[..n], query);
      assert |idx| == |r|;
      forall k | 0 <= k < |idx|
        ensures r[k] == es[idx[k]]
      {
        if k < |idx'| {
          assert idx[k] == idx'[k] && r[k] == r'[k];
          assert es[..n][idx'[k]] == es[idx'[k]];
        }
      }
    }
  }

  /** An empty query (the default of an empty answer) matches every record. */
  lemma {:induction false} SearchEmptyQuery(es: seq<Employee>)
    ensures Search(es, "") == es
  {
    if es != [] {
      SearchEmptyQuery(es[..|es| - 1]);
      assert ToLower("") == "";
      assert es[..|es| - 1] + [es[|es| - 1]] == es;
    }
  }

  /** The case of the query does not matter. */
  lemma {:induction false} SearchIgnoresQueryCase(es: seq<Employee>, query: string)
    ensures Search(es, ToLower(query)) == Search(es, query)
  {
    ToLowerIdempotent(query);
    if es != [] {
      SearchIgnoresQueryCase(es[..|es| - 1], query);
    }
  }

  /** Which of the names Alice, Bob and alicia contain "ali", ignoring case. */
  lemma ExampleNamesMatch()
    ensures Contains(ToLower("Alice"), ToLower("ali"))
    ensures Contains(ToLower("alicia"), ToLower("ali"))
    ensures !Contains(ToLower("Bob"), ToLower("ali"))
  {
    assert ToLower("ali") == "ali";
    assert ToLower("Alice") == "alice";
    assert ToLower("Bob") == "bob";
    assert ToLower("alicia") == "alicia";
    assert !Contains("", "ali");
    assert "b"[1..] == "" && "b"[0] != "ali"[0] && !Contains("b", "ali");
    assert "ob"[1..] == "b" && "ob"[0] != "ali"[0] && !Contains("ob", "ali");
    assert "bob"[1..] == "ob" && "bob"[0] != "ali"[0] && !Contains("bob", "ali");
  }

  /** Alice, Bob and alicia searched for "ali": Alice and alicia, in that order. */
  lemma SearchExample(d: ValidDate)
    ensures var alice := Employee(1, "Alice", "", "", 0, d);
            var bob := Employee(2, "Bob", "", "", 0, d);
            var alicia := Employee(3, "alicia", "", "", 0, d);
            Search([alice, bob, alicia], "ali") == [alice, alicia]
  {
    var alice := Employee(1, "Alice", "", "", 0, d);
    var bob := Employee(2, "Bob", "", "", 0, d);
    var alicia := Employee(3, "alicia", "", "", 0, d);
    ExampleNamesMatch();
    assert Matches(alice, "ali") && Matches(alicia, "ali") && !Matches(bob, "ali");
    assert [alice, bob, alicia][..2] == [alice, bob];
    assert [alice, bob][..1] == [alice];
    assert Search([alice], "ali") == [alice];
    assert Search([alice, bob], "ali") == [alice];
  }

  // ---------------------------------------------------------------------------
  // The store object

  /**
   * The process-wide employee list. Each operation that changes the list
   * also rewrites the file; the lines written are returned.
   */
  class EmployeeStore {
    var employees: seq<Employee>

    constructor ()
      ensures employees == []
    {
      employees := [];
    }

    /** AddNewEmployee: append a record whose ID is the old count plus one, then save. */
    method Add(name: string, dept: string, position: string, salary: nat, hired: ValidDate)
      returns (e: Employee, file: seq<string>)
      modifies this
      ensures e == Employee(|old(employees)| + 1, name, dept, position, salary, hired)
      ensures employees == old(employees) + [e]
      ensures employees == Added(old(employees), name, dept, position, salary, hired)
      ensures file == EncodeAll(employees)
    {
      e := Employee(|employees| + 1, name, dept, position, salary, hired);
      employees := employees + [e];
      file := Save();
    }

    /**
     * UpdateEmployee: apply the answers to the first record with `id` and save;
     * None (nothing changed, nothing written) when no record has it.
     */
    method Update(id: int, edit: Edit) returns (file: Option<seq<string>>)
      modifies this
      ensures file.Some? <==> Find(old(employees), id).Some?
      ensures employees == Updated(old(employees), id, edit)
      ensures file.Some? ==> file.value == EncodeAll(employees)
    {
      match FirstIndex(employees, id)
      case None =>
        file := None;
      case Some(i) =>
        employees := employees[i := ApplyEdit(employees[i], edit)];
        var lines := Save();
        file := Some(lines);
    }

    /**
     * DeleteEmployee: remove the record FindEmployeeById returns and save;
     * None (nothing changed, nothing written) when no record has `id`.
     */
    method Delete(id: int) returns (file: Option<seq<string>>)
      modifies this
      ensures file.Some? <==> Find(old(employees), id).Some?
      ensures employees == Deleted(old(employees), id)
      ensures file.Some? ==> file.value == EncodeAll(employees)
    {
      var found := Find(employees, id);
      match found
      case None =>
        file := None;
      case Some(emp) =>
        RemoveFirstIsDeleted(employees, id, FirstIndex(employees, id).value);
        employees := RemoveFirst(employees, emp);
        var lines := Save();
        file := Some(lines);
    }

    /**
     * LoadEmployeesFromCSV: append the records of the file line by line; a
     * missing file (None) loads nothing. A line that does not decode stops the
     * load with an error, and the records of the lines before it stay appended.
     */
    method Load(file: Option<seq<string>>) returns (err: Option<LoadError>)
      modifies this
      ensures file.None? ==> err.None? && employees == old(employees)
      ensures file.Some? && DecodeAll(file.value).Success? ==>
        err.None? && employees == old(employees) + DecodeAll(file.value).value
      ensures file.Some? && DecodeAll(file.value).Failure? ==>
        err == Some(DecodeAll(file.value).error) &&
        DecodeAll(file.value[..err.value.line]).Success? &&
        employees == old(employees) + DecodeAll(file.value[..err.value.line]).value
    {
      err := None;
      if file.None? {
        return;
      }
      var lines := file.value;
      var i := 0;
      while i < |lines|
        invariant 0 <= i <= |lines|
        invariant DecodeAll(lines[..i]).Success?
        invariant employees == old(employees) + DecodeAll(lines[..i]).value
      {
        var decoded := DecodeLine(lines[i]);
        DecodeAllStep(lines, i);
        if decoded.Failure? {
          err := Some(LoadError(i, decoded.error));
          return;
        }
        employees := employees + [decoded.value];
        i := i + 1;
      }
      assert lines[..i] == lines;
    }

    /** SaveEmployeesToCSV: one encoded line per record, in list order. */
    method Save() returns (lines: seq<string>)
      ensures |lines| == |employees|
      ensures forall i :: 0 <= i < |employees| ==> lines[i] == Encode(employees[i])
      ensures lines == EncodeAll(employees)
    {
      lines := [];
      for i := 0 to |employees|
        invariant lines == EncodeAll(employees[..i])
      {
        assert employees[..i + 1][..i] == employees[..i];
        lines := lines + [Encode(employees[i])];
      }
      assert employees[..|employees|] == employees;
    }
  }
}
