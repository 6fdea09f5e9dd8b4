# Employee record store, modelled in Dafny

The Employee Management System keeps an ordered, process-wide list of employee
records and rewrites a comma-separated file after every change. This project
models that core:

- `records.dfy` (module `Records`): the employee record, calendar dates, and
  the answers an update applies, where an empty answer keeps the current value.
- `text.dfy` (module `Text`): splitting on `,`, ASCII lower-casing, substring
  containment, and decimal rendering and parsing of integers.
- `codec.dfy` (module `Codec`): one record per line, written as
  `ID,Name,Dept,Position,Salary,yyyy-MM-dd`. A line is read by splitting on `,`
  and taking fields 0 to 5 by position. A whole file is read line by line and
  the read stops at the first bad line.
- `store.dfy` (module `Store`): the list operations as functions over
  `seq<Employee>`. These are lookup of the first record with an ID, add with
  `ID = Count + 1`, update and delete of the first match, and the
  case-insensitive name search. The class `EmployeeStore` owns the list, changes
  it in place, and is proved to follow those functions. Its mutating methods
  return the file lines they write.
- `wrappers.dfy` (module `Wrappers`): `Option` and `Result`.

Identifiers are assigned exactly as the program assigns them: the current
count plus one. They are therefore not unique after a delete.
`Store.DeleteThenAddRepeatsId` proves the collision. Start from IDs 1..n, delete
any record but the last, then add: the new record gets ID n, which the last
remaining record already has. For the same reason, `Store.FindAfterDelete`
shows that a deleted ID can still be found afterwards. That happens exactly
when another record shares the ID.

Three behaviours of the program are kept as they are:

- IDs are not unique after a delete, as shown above.
- A line is read by position. Fields after the sixth are ignored, and a line
  with fewer than six fields fails. The failure comes from the first step that
  needs a missing or unparsable field. Parsing the ID comes first, then fields 1
  to 4 with the salary, then the date.
- A bad line raises an exception that nothing catches, so the program
  terminates during the load. `EmployeeStore.Load` instead returns a
  `LoadError`, with the records of the earlier lines already appended.

## Model

| member | source | states |
|---|---|---|
| `Text.Split` | Program.cs:76 | splitting a line gives at least one field, and no field contains the delimiter |
| `Text.SplitJoin` | Program.cs:76 | splitting fields joined by the delimiter gives the same fields back when none of them contains it |
| `Text.SplitCount` | Program.cs:76 | a line splits into one more field than it has delimiters |
| `Text.ToLower` | Program.cs:221 | lower-casing keeps the length and maps each character by ASCII lower-casing |
| `Text.Contains` | Program.cs:221 | the empty query is contained in every name, and a contained query is no longer than the name |
| `Text.ContainsAt` | Program.cs:221 | the substring test holds exactly when the query occurs at some position of the name |
| `Text.DigitsFixedRoundTrip` | Program.cs:85 | a digit string is the zero-padded rendering, at its own width, of the number it denotes |
| `Text.FixedDigitsValue` | Program.cs:18 | a zero-padded fixed-width rendering (`yyyy`, `MM`, `dd`) reads back as the same number |
| `Text.NatRoundTrip` | Program.cs:80 | a natural number rendered in decimal parses back to itself |
| `Text.ParseInt` | Program.cs:84 | parsing succeeds exactly on one or more digits, optionally after a '-', and gives a negative value only after a '-' |
| `Text.IntRoundTrip` | Program.cs:84 | an integer rendered with a leading '-' when negative parses back to itself |
| `Text.ParseInt32` | Program.cs:80 | int.Parse succeeds only inside the 32-bit range, and agrees with plain integer parsing there |
| `Records.GetInput` | Program.cs:244-249 | a non-empty answer is taken as given, an empty answer gives the current value, and the result is empty only when both are |
| `Records.ApplyEdit` | Program.cs:159-163 | an update keeps the ID; each text field takes the answer unless it is empty; salary and date take the new value only when one was given |
| `Records.EmptyEditKeepsRecord` | Program.cs:244-249 | answering every update prompt with an empty line leaves the record unchanged |
| `Codec.FormatDate` | Program.cs:18 | the date is written as exactly ten characters, all digits or '-' |
| `Codec.ParseDate` | Program.cs:85 | a date accepted from a text is written back as exactly that text |
| `Codec.ParsedDateFormats` | Program.cs:85 | the date read from yyyy-MM-dd digits renders as the same text |
| `Codec.DateRoundTrip` | Program.cs:85 | a date written as yyyy-MM-dd is read back as the same date |
| `Codec.DecodeLine` | Program.cs:76-86 | a line decodes exactly when it has at least six comma-separated fields and fields 0, 4 and 5 parse as a 32-bit ID, a salary and a date; the record is then fields 0 to 5 by position, later fields ignored; failures come in source order: an unparsable field 0 is a bad ID before any field count is looked at, then fewer than five fields, then an unparsable field 4 as a bad salary, then fewer than six fields, then an unparsable field 5 as a bad date |
| `Codec.Encode` | Program.cs:16-19 | splitting the written line on ',' gives the six fields in file order when no text field contains a comma |
| `Codec.LineRoundTrip` | Program.cs:16-19 | a record with no comma in a text field and a 32-bit ID is read back from its line exactly |
| `Codec.DecodedIsStorable` | Program.cs:76-86 | every record read from a line has comma-free text fields and a 32-bit ID |
| `Codec.RoundTripIffStorable` | Program.cs:16-19 | a record survives writing and reading exactly when its text fields are comma-free and its ID fits 32 bits |
| `Codec.DecodeEncodeDecode` | Program.cs:76-86 | re-encoding a decoded line and decoding it again gives the same record |
| `Codec.EncodeAll` | Program.cs:98-101 | the file has one line per record, and line i encodes record i |
| `Codec.DecodeAll` | Program.cs:73-88 | a file loads when every line decodes, giving record i from line i; otherwise it reports the first line that fails and why |
| `Codec.DecodeAllLinewise` | Program.cs:73-88 | a file whose line i decodes to record i loads as exactly those records |
| `Codec.DecodeAllStep` | Program.cs:73-88 | after a decoded prefix, the next line either extends the loaded records or makes the whole file fail at that line |
| `Codec.SaveLoadRoundTrip` | Program.cs:94-101 | saving records with comma-free text fields and 32-bit IDs and loading the file gives back the same records in the same order |
| `Store.FirstIndex` | Program.cs:239-242 | the position found is the first whose ID matches, and there is none exactly when no record has the ID |
| `Store.Find` | Program.cs:239-242 | the lookup finds nothing exactly when no record has the ID; otherwise it returns the first record in list order with that ID |
| `Store.FirstIndexSameIds` | Program.cs:241 | the first match depends only on the IDs, position by position |
| `Store.NewEmployee` | Program.cs:131-139 | a new record's ID, the count plus one, is at least 1 |
| `Store.Added` | Program.cs:141 | the list gains one record at the end, the earlier records are unchanged, and the new record has ID count + 1 and the given fields |
| `Store.AddKeepsIdsDense` | Program.cs:133 | while nothing is deleted, adds keep the IDs 1..n, and the new ID is not in use |
| `Store.DeleteThenAddRepeatsId` | Program.cs:133 | after a delete, the next add reuses the ID of the last record, so two records share it |
| `Store.RemoveFirst` | Program.cs:175 | List.Remove leaves the list unchanged when the element is absent; otherwise it drops the first element equal to it and keeps the rest in order |
| `Store.IndexOf` | Program.cs:175 | the position List.Remove removes holds the element, and no earlier position does |
| `Store.Deleted` | Program.cs:178-182 | deleting an absent ID leaves the list unchanged |
| `Store.RemoveFirstIsDeleted` | Program.cs:172-175 | removing the record the lookup returned removes exactly the first record with that ID |
| `Store.DeleteRemovesFirstMatch` | Program.cs:169-177 | deleting an existing ID drops one record; the records before and after it keep their order; the multiset loses exactly that record |
| `Store.FindAfterDelete` | Program.cs:172-175 | after a delete, the ID can no longer be found exactly when no other record had it |
| `Store.Updated` | Program.cs:152-163 | an update changes only the first record with the ID, applying the answers to it; every other position is unchanged, and so is the whole list when the ID is absent |
| `Store.FindAfterUpdate` | Program.cs:152-163 | looking the ID up after an update gives the edited record, or nothing when it was absent |
| `Store.Matches` | Program.cs:221 | an empty query matches every name, and a matching query is no longer than the name |
| `Store.Search` | Program.cs:221 | every search result matches the query and comes from the list; there are no more results than records |
| `Store.MatchIndices` | Program.cs:221 | the matching positions are in range and strictly increasing, and a position is listed exactly when its record matches |
| `Store.SearchIsOrderedSubsequence` | Program.cs:221 | the search result is the records at the matching positions, in list order |
| `Store.SearchEmptyQuery` | Program.cs:219-221 | an empty query, the default answer, returns every record |
| `Store.SearchIgnoresQueryCase` | Program.cs:221 | lower-casing the query does not change the result |
| `Store.SearchExample` | Program.cs:221 | searching Alice, Bob and alicia for "ali" gives Alice then alicia |
| `Store.EmployeeStore.constructor` | Program.cs:25 | the store starts empty |
| `Store.EmployeeStore.Add` | Program.cs:129-143 | appends one record with ID = old count + 1 and the given fields; earlier records are unchanged; the file written encodes the new list |
| `Store.EmployeeStore.Update` | Program.cs:149-167 | writes the file exactly when the ID exists; the new list is the old one with the first match edited |
| `Store.EmployeeStore.Delete` | Program.cs:169-183 | writes the file exactly when the ID exists; the new list is the old one without its first match |
| `Store.EmployeeStore.Load` | Program.cs:63-92 | a missing file changes nothing; otherwise the decoded records are appended in file order; on the first bad line the error is returned and only the earlier records are appended |
| `Store.EmployeeStore.Save` | Program.cs:94-105 | writes one encoded line per record, in list order |

## Left out

- Console I/O is not modelled. This covers the menu loop, `DisplayMenu`, the
  table and search-result printing, "View All Employees" (display only) and the
  `Console.ReadKey` pauses.
- File access is reduced to its content. A file is modelled as its sequence of
  lines, and a missing file as `None`.
- Line breaks inside a text field are not modelled. Such a field would also
  corrupt the file, because the file is treated as a list of lines.
- Write failures of `StreamWriter` are not modelled.
- The unhandled exception that a bad line raises during load is not modelled.
  The model returns it as a `LoadError`.
- Salary is a whole number, not a double. A file line whose salary has a
  fraction is therefore a `BadSalary` in the model, although the program writes
  such a line when the operator enters a fractional salary and `double.Parse`
  reads it back. Culture-dependent parsing and formatting of numbers and dates
  are not modelled. `ToShortDateString` and the `F2` display format are also
  left out.
- Records are values, not objects. The property setters that update the record
  found by ID become a replacement of the first matching list element.
- `Store.RemoveFirst`: compares records by their fields where `List.Remove`
  compares references. The two agree at the one call the program makes, which
  removes the first record with the ID (`Store.RemoveFirstIsDeleted`); they
  would differ only for a later duplicate equal in every field to an earlier
  record.
- The integer parser is strict: an optional '-' and then digits. The leading or
  trailing white space and '+' that int.Parse and double.Parse accept are not
  modelled.
- `Codec.ParseDate`: accepts only the `yyyy-MM-dd` form that the program
  writes. The other forms that DateTime.Parse accepts are not modelled.
- Lower-casing is ASCII only, not culture-sensitive `ToLower`.
- Interactive re-prompting is not modelled. This covers `GetValidIntInput`,
  `GetValidDoubleInput` and `GetValidDateInput`. Their outcomes are the
  parameters of the operations: a positive ID, a salary of at least 0, and a
  valid date.
- `Store.EmployeeStore.Update`: a salary or date answer that is absent keeps the
  current value. The program instead re-prompts when the current salary is -1 or
  the current date is DateTime's default (0001-01-01).
- `Store.EmployeeStore.Add`: IDs are unbounded integers. The `Count + 1`
  overflow of a 32-bit int is not modelled, because a .NET list cannot hold that
  many elements.
