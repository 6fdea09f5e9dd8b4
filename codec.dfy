/**
 * The line format of the employee file (Program.cs, Employee.ToString and the
 * loops of LoadEmployeesFromCSV and SaveEmployeesToCSV): six comma-separated
 * fields, ID,Name,Dept,Position,Salary,yyyy-MM-dd, one record per line.
 */
module Codec {
  import opened Wrappers
  import opened Text
  import opened Records

  // ---------------------------------------------------------------------------
  // Dates as yyyy-MM-dd

  function FormatDate(d: ValidDate): (s: string)
    ensures |s| == 10
    ensures forall k :: 0 <= k < |s| ==> IsDigit(s[k]) || s[k] == '-'
  {
    FixedDigits(d.year, 4) + "-" + FixedDigits(d.month, 2) + "-" + FixedDigits(d.day, 2)
  }

  /**
   * Reads exactly the yyyy-MM-dd form and accepts only a date that exists; a
   * date it accepts is written back as the same text.
   */
  function ParseDate(s: string): (r: Option<ValidDate>)
    ensures r.Some? ==> FormatDate(r.value) == s
  {
    if |s| == 10 && s[4] == '-' && s[7] == '-'
       && AllDigits(s[..4]) && AllDigits(s[5..7]) && AllDigits(s[8..])
    then
      var d := Date(DigitsValue(s[..4]), DigitsValue(s[5..7]), DigitsValue(s[8..]));
      if IsValidDate(d) then
        ParsedDateFormats(s, d);
        Some(d)
      else None
    else None
  }

  /** The date read from a yyyy-MM-dd text renders as that text again. */
  lemma ParsedDateFormats(s: string, d: ValidDate)
    requires |s| == 10 && s[4] == '-' && s[7] == '-'
    requires AllDigits(s[..4]) && AllDigits(s[5..7]) && AllDigits(s[8..])
    requires d == Date(DigitsValue(s[..4]), DigitsValue(s[5..7]), DigitsValue(s[8..]))
    ensures FormatDate(d) == s
  {
    DigitsFixedRoundTrip(s[..4]);
    DigitsFixedRoundTrip(s[5..7]);
    DigitsFixedRoundTrip(s[8..]);
    assert s == s[..4] + "-" + s[5..7] + "-" + s[8..];
  }

  lemma DateRoundTrip(d: ValidDate)
    ensures ParseDate(FormatDate(d)) == Some(d)
  {
    var s := FormatDate(d);
    assert s[..4] == FixedDigits(d.year, 4);
    assert s[5..7] == FixedDigits(d.month, 2);
    assert s[8..] == FixedDigits(d.day, 2);
    FixedDigitsValue(d.year, 4);
    FixedDigitsValue(d.month, 2);
    FixedDigitsValue(d.day, 2);
  }

  // ---------------------------------------------------------------------------
  // One record per line

  /** The six fields of a record, in file order. */
  function Fields(e: Employee): (fs: seq<string>)
    ensures |fs| == 6
  {
    [IntToString(e.id), e.name, e.dept, e.position, IntToString(e.salary), FormatDate(e.hired)]
  }

  /**
   * Employee.ToString: the fields joined with commas. Splitting the line on ','
   * gives the six fields back, in order, when no text field holds a comma.
   */
  function Encode(e: Employee): (line: string)
    ensures ',' !in e.name && ',' !in e.dept && ',' !in e.position ==>
      Split(line, ',') == Fields(e)
  {
    NoCommaInNumber(e.id);
    NoCommaInNumber(e.salary);
    NoCommaInDate(e.hired);
    if ',' !in e.name && ',' !in e.dept && ',' !in e.position then
      SplitJoin(Fields(e), ',');
      Join(Fields(e), ',')
    else
      Join(Fields(e), ',')
  }

  /** Why a line could not be read back (each an exception that Program.cs does not catch). */
  datatype DecodeError =
    | MissingFields(count: nat)   // values[1..5] indexed past the end
    | BadId(text: string)         // int.Parse failed
    | BadSalary(text: string)     // double.Parse failed
    | BadDate(text: string)       // DateTime.Parse failed

  /**
   * One line read as the load loop reads it: split on ',' and take fields 0 to 5
   * by position, in the order the object initializer evaluates them: the
   * identifier, then fields 1 to 4 with the salary, then the date.
   * Fields after the sixth are ignored.
   */
  function DecodeLine(line: string): (r: Result<Employee, DecodeError>)
    ensures |Split(line, ',')| < 6 ==> r.Failure?
    ensures ParseInt32(Split(line, ',')[0]).None? ==> r == Failure(BadId(Split(line, ',')[0]))
    ensures var v := Split(line, ',');
      ParseInt32(v[0]).Some? && |v| < 5 ==> r == Failure(MissingFields(|v|))
    ensures var v := Split(line, ',');
      ParseInt32(v[0]).Some? && |v| >= 5 && ParseInt(v[4]).None? ==> r == Failure(BadSalary(v[4]))
    ensures var v := Split(line, ',');
      ParseInt32(v[0]).Some? && |v| == 5 && ParseInt(v[4]).Some? ==> r == Failure(MissingFields(5))
    ensures var v := Split(line, ',');
      |v| >= 6 && ParseInt32(v[0]).Some? && ParseInt(v[4]).Some? && ParseDate(v[5]).None? ==>
        r == Failure(BadDate(v[5]))
    ensures var v := Split(line, ',');
      r.Success? <==>
        |v| >= 6 && ParseInt32(v[0]).Some? && ParseInt(v[4]).Some? && ParseDate(v[5]).Some?
    ensures var v := Split(line, ',');
      r.Success? ==>
        r.value == Employee(ParseInt32(v[0]).value, v[1], v[2], v[3],
                            ParseInt(v[4]).value, ParseDate(v[5]).value)
    ensures r.Success? ==> IsInt32(r.value.id)
  {
    var values := Split(line, ',');
    match ParseInt32(values[0])
    case None => Failure(BadId(values[0]))
    case Some(id) =>
      if |values| < 5 then Failure(MissingFields(|values|))
      else
        match ParseInt(values[4])
        case None => Failure(BadSalary(values[4]))
        case Some(salary) =>
          if |values| < 6 then Failure(MissingFields(|values|))
          else
            match ParseDate(values[5])
            case None => Failure(BadDate(values[5]))
            case Some(hired) =>
              Success(Employee(id, values[1], values[2], values[3], salary, hired))
  }

  /** A record the file format can carry: no comma in a text field, and an ID int.Parse accepts. */
  predicate Storable(e: Employee)
  {
    IsInt32(e.id) && ',' !in e.name && ',' !in e.dept && ',' !in e.position
  }

  lemma NoCommaInNumber(n: int)
    ensures ',' !in IntToString(n)
  {
  }

  lemma NoCommaInDate(d: ValidDate)
    ensures ',' !in FormatDate(d)
  {
  }

  /** A storable record is read back exactly. */
  lemma LineRoundTrip(e: Employee)
    requires Storable(e)
    ensures DecodeLine(Encode(e)) == Success(e)
  {
    var fs := Fields(e);
    NoCommaInNumber(e.id);
    NoCommaInNumber(e.salary);
    NoCommaInDate(e.hired);
    SplitJoin(fs, ',');
    IntRoundTrip(e.id);
    IntRoundTrip(e.salary);
    DateRoundTrip(e.hired);
  }

  /** Every record read from a line is storable: split fields never hold the delimiter. */
  lemma DecodedIsStorable(line: string)
    ensures DecodeLine(line).Success? ==> Storable(DecodeLine(line).value)
  {
    var values := Split(line, ',');
    if |values| >= 6 {
      assert ',' !in values[1] && ',' !in values[2] && ',' !in values[3];
    }
  }

  /** Writing a record and reading it back gives the same record exactly when it is storable. */
  lemma RoundTripIffStorable(e: Employee)
    ensures DecodeLine(Encode(e)) == Success(e) <==> Storable(e)
  {
    if Storable(e) {
      LineRoundTrip(e);
    } else {
      DecodedIsStorable(Encode(e));
    }
  }

  /** Re-encoding what was read and reading it again changes nothing. */
  lemma DecodeEncodeDecode(line: string)
    ensures DecodeLine(line).Success? ==>
      DecodeLine(Encode(DecodeLine(line).value)) == DecodeLine(line)
  {
    if DecodeLine(line).Success? {
      DecodedIsStorable(line);
      LineRoundTrip(DecodeLine(line).value);
    }
  }

  // ---------------------------------------------------------------------------
  // Whole files: one encoded line per record, in list order

  /** The lines SaveEmployeesToCSV writes for `es`. */
  function EncodeAll(es: seq<Employee>): (lines: seq<string>)
    ensures |lines| == |es|
    ensures forall i :: 0 <= i < |es| ==> lines[i] == Encode(es[i])
  {
    if es == [] then [] else EncodeAll(es[..|es| - 1]) + [Encode(es[|es| - 1])]
  }

  /** The first line that could not be read (counting from 0) and why. */
  datatype LoadError = LoadError(line: nat, reason: DecodeError)

  /**
   * The records of a whole file, in file order; the load stops at the first
   * line that does not decode and reports it.
   */
  function DecodeAll(lines: seq<string>): (r: Result<seq<Employee>, LoadError>)
    ensures r.Success? ==>
      |r.value| == |lines| &&
      forall i {:trigger DecodeLine(lines[i])} ::
        0 <= i < |lines| ==> DecodeLine(lines[i]) == Success(r.value[i])
    ensures r.Failure? ==>
      r.error.line < |lines| &&
      DecodeLine(lines[r.error.line]) == Failure(r.error.reason) &&
      forall i {:trigger DecodeLine(lines[i])} ::
        0 <= i < r.error.line ==> DecodeLine(lines[i]).Success?
  {
    if lines == [] then Success([])
    else
      var n := |lines| - 1;
      var prefix := DecodeAll(lines[..n]);
      if prefix.Failure? then
        PrefixDecodes(DecodeLine, lines, n, prefix.error.line);
        assert lines[..n][prefix.error.line] == lines[prefix.error.line];
        prefix
      else
        var d := DecodeLine(lines[n]);
        if d.Failure? then
          PrefixDecodes(DecodeLine, lines, n, n);
          Failure(LoadError(n, d.error))
        else
          SnocDecodes(DecodeLine, lines, prefix.value, d.value);
          Success(prefix.value + [d.value])
  }

  /** What a line decoder says of the first `k` lines of `lines[..n]` it says of `lines`. */
  lemma PrefixDecodes(decode: string -> Result<Employee, DecodeError>, lines: seq<string>, n: nat, k: nat)
    requires k <= n <= |lines|
    requires forall i :: 0 <= i < k ==> decode(lines[..n][i]).Success?
    ensures forall i :: 0 <= i < k ==> decode(lines[i]).Success?
  {
    assert forall i :: 0 <= i < k ==> lines[..n][i] == lines[i];
  }

  /** Lines decoding to `es`, then one more line decoding to `e`, decode to `es + [e]`. */
  lemma SnocDecodes(decode: string -> Result<Employee, DecodeError>, lines: seq<string>,
                    es: seq<Employee>, e: Employee)
    requires |lines| == |es| + 1
    requires forall i :: 0 <= i < |es| ==> decode(lines[..|es|][i]) == Success(es[i])
    requires decode(lines[|es|]) == Success(e)
    ensures forall i :: 0 <= i < |lines| ==> decode(lines[i]) == Success((es + [e])[i])
  {
    forall i | 0 <= i < |lines|
      ensures decode(lines[i]) == Success((es + [e])[i])
    {
      if i < |es| {
        assert lines[..|es|][i] == lines[i];
      }
    }
  }

  /** A file decodes to `es` when each of its lines decodes to the record at the same position. */
  lemma DecodeAllLinewise(lines: seq<string>, es: seq<Employee>)
    requires |lines| == |es|
    requires forall i :: 0 <= i < |es| ==> DecodeLine(lines[i]) == Success(es[i])
    ensures DecodeAll(lines) == Success(es)
  {
    var r := DecodeAll(lines);
    assert r.Success?;
    assert forall i :: 0 <= i < |es| ==> r.value[i] == es[i];
    assert r.value == es;
  }

  /** Saving storable records and loading the file gives back the same records in the same order. */
  lemma SaveLoadRoundTrip(es: seq<Employee>)
    requires forall i :: 0 <= i < |es| ==> Storable(es[i])
    ensures DecodeAll(EncodeAll(es)) == Success(es)
  {
    var lines := EncodeAll(es);
    forall i | 0 <= i < |es|
      ensures DecodeLine(lines[i]) == Success(es[i])
    {
      LineRoundTrip(es[i]);
    }
    DecodeAllLinewise(lines, es);
  }

  // ---------------------------------------------------------------------------
  // Loading line by line

  /**
   * One more line of a file whose first `i` lines decoded: either it decodes and
   * extends the records, or the whole file fails at exactly this line.
   */
  lemma DecodeAllStep(lines: seq<string>, i: nat)
    requires i < |lines|
    requires DecodeAll(lines[..i]).Success?
    ensures DecodeLine(lines[i]).Success? ==>
      DecodeAll(lines[..i + 1]) ==
        Success(DecodeAll(lines[..i]).value + [DecodeLine(lines[i]).value])
    ensures DecodeLine(lines[i]).Failure? ==>
      DecodeAll(lines) == Failure(LoadError(i, DecodeLine(lines[i]).error))
  {
    assert lines[..i + 1][..i] == lines[..i];
    if DecodeLine(lines[i]).Failure? {
      PrefixDecodes(DecodeLine, lines, i, i);
      var r := DecodeAll(lines);
      assert r.Failure?;
      assert r.error.line == i;
    }
  }
}
