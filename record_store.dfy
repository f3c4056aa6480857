/** The record store of address_to_location.rb: the header line is split on
    `;` into lower-case column names, and every later line becomes a hash
    from column name to the stripped value in the same position, keyed by
    its line number minus one. */
module RecordStore {
  import opened Wrappers
  import opened RubyStrings

  /** `DELIMITER`. */
  const Delimiter: char := ';'

  /** The ways the script stops with an exception before it opens its output:
      `readline` on an empty input, `nil.strip` on a row with fewer fields
      than the header, `nil.gsub` when the `address` or `country` column is
      missing (the last raised while the requests are built). */
  datatype InputError =
    | EmptyInput
    | MalformedRow(line: nat)
    | MissingColumn(key: nat, column: string)

  /** One pair of the ordered hash `file_contents`: the key (the line number
      minus one) and the hash of the row's column values. */
  datatype Entry = Entry(key: nat, fields: map<string, string>)

  /** The parsed input: the column names in header order and the entries of
      `file_contents` in insertion order. */
  datatype Table = Table(headers: seq<string>, records: seq<Entry>)

  /** The column names of a header line (address_to_location.rb:59). */
  function ParseHeaders(line: string): (r: seq<string>)
    ensures |r| == |Split(line, Delimiter)|
  {
    var fields := Split(line, Delimiter);
    seq(|fields|, i requires 0 <= i < |fields| => Downcase(Strip(fields[i])))
  }

  /** One column name: a field stripped and lower-cased holds no upper-case
      letter and no surrounding whitespace, and the delimiter only if the
      field did. */
  lemma HeaderName(field: string)
    ensures Delimiter !in field ==> Delimiter !in Downcase(Strip(field))
    ensures forall j :: 0 <= j < |Downcase(Strip(field))| ==> !IsUpper(Downcase(Strip(field))[j])
    ensures Downcase(Strip(field)) != [] ==>
              !IsSpace(Downcase(Strip(field))[0]) && !IsSpace(Downcase(Strip(field))[|Downcase(Strip(field))| - 1])
  {
    var t := Strip(field);
    StripChars(field);
    StripSpec(field);
    DowncaseSpec(t);
    var r := Downcase(t);
    if r != [] {
      assert r[0] == DowncaseChar(t[0]) && r[|r| - 1] == DowncaseChar(t[|t| - 1]);
    }
  }

  /** The column names are the `;`-separated fields of the header line, each
      stripped and lower-cased, in their original order; none holds the
      delimiter, surrounding whitespace or an upper-case letter. */
  lemma HeadersSpec(line: string)
    ensures forall i :: 0 <= i < |ParseHeaders(line)| ==>
              ParseHeaders(line)[i] == Downcase(Strip(Split(line, Delimiter)[i]))
    ensures forall i :: 0 <= i < |ParseHeaders(line)| ==> Delimiter !in ParseHeaders(line)[i]
    ensures forall i, j :: 0 <= i < |ParseHeaders(line)| && 0 <= j < |ParseHeaders(line)[i]| ==>
              !IsUpper(ParseHeaders(line)[i][j])
    ensures forall i :: 0 <= i < |ParseHeaders(line)| && ParseHeaders(line)[i] != [] ==>
              !IsSpace(ParseHeaders(line)[i][0]) && !IsSpace(ParseHeaders(line)[i][|ParseHeaders(line)[i]| - 1])
  {
    var fields := Split(line, Delimiter);
    var r := ParseHeaders(line);
    SplitNoSeparator(line, Delimiter);
    forall i | 0 <= i < |r|
      ensures Delimiter !in r[i]
      ensures forall j :: 0 <= j < |r[i]| ==> !IsUpper(r[i][j])
      ensures r[i] != [] ==> !IsSpace(r[i][0]) && !IsSpace(r[i][|r[i]| - 1])
    {
      assert r[i] == Downcase(Strip(fields[i]));
      HeaderName(fields[i]);
    }
  }

  /** The hash `column_values` after the first `k` columns: each of those
      column names is bound to the stripped value at its position, a later
      position overwriting an earlier one with the same name. */
  function RowFields(headers: seq<string>, values: seq<string>, k: nat): (m: map<string, string>)
    requires k <= |headers| && k <= |values|
  {
    if k == 0 then map[]
    else RowFields(headers, values, k - 1)[headers[k - 1] := Strip(values[k - 1])]
  }

  /** A row hash binds exactly the column names seen so far; when no value
      holds the delimiter, no bound value does. */
  lemma {:induction false} RowFieldsSpec(headers: seq<string>, values: seq<string>, k: nat)
    requires k <= |headers| && k <= |values|
    ensures forall h :: h in RowFields(headers, values, k) <==> h in headers[..k]
    ensures (forall j :: 0 <= j < |values| ==> Delimiter !in values[j]) ==>
              forall h :: h in RowFields(headers, values, k) ==> Delimiter !in RowFields(headers, values, k)[h]
  {
    if k > 0 {
      RowFieldsSpec(headers, values, k - 1);
      assert headers[..k] == headers[..k - 1] + [headers[k - 1]];
      StripChars(values[k - 1]);
    }
  }

  /** A row can be parsed when it has at least as many fields as the header. */
  predicate RowFits(headers: seq<string>, line: string) {
    |Split(line, Delimiter)| >= |headers|
  }

  /** The hash of one data line that has enough fields. */
  function RecordOf(headers: seq<string>, line: string): (record: map<string, string>)
    requires RowFits(headers, line)
  {
    RowFields(headers, Split(line, Delimiter), |headers|)
  }

  /** The value bound to the column at position `i` is the stripped field at
      `i`, unless a later column has the same name (the later one wins). */
  lemma {:induction false} LastWins(headers: seq<string>, values: seq<string>, k: nat, i: nat)
    requires k <= |headers| && k <= |values|
    requires i < k
    requires forall j :: i < j < k ==> headers[j] != headers[i]
    ensures headers[i] in RowFields(headers, values, k)
    ensures RowFields(headers, values, k)[headers[i]] == Strip(values[i])
  {
    if i < k - 1 {
      LastWins(headers, values, k - 1, i);
    }
  }

  /** Fields beyond the number of columns play no part in the row's hash. */
  lemma {:induction false} ExtraFieldsIgnored(headers: seq<string>, values: seq<string>, k: nat)
    requires k <= |headers| <= |values|
    ensures RowFields(headers, values, k) == RowFields(headers, values[..|headers|], k)
  {
    if k > 0 {
      ExtraFieldsIgnored(headers, values, k - 1);
    }
  }

  /** A parsed record binds exactly the column names, each column whose name
      does not recur later to the stripped field at its position, and none of
      its values holds the delimiter. */
  lemma RecordSpec(headers: seq<string>, line: string)
    requires RowFits(headers, line)
    ensures forall h :: h in RecordOf(headers, line) <==> h in headers
    ensures forall h :: h in RecordOf(headers, line) ==> Delimiter !in RecordOf(headers, line)[h]
    ensures forall i :: 0 <= i < |headers| && (forall j :: i < j < |headers| ==> headers[j] != headers[i]) ==>
              RecordOf(headers, line)[headers[i]] == Strip(Split(line, Delimiter)[i])
  {
    var values := Split(line, Delimiter);
    SplitNoSeparator(line, Delimiter);
    RowFieldsSpec(headers, values, |headers|);
    assert headers[..|headers|] == headers;
    forall i | 0 <= i < |headers| && (forall j :: i < j < |headers| ==> headers[j] != headers[i])
      ensures RecordOf(headers, line)[headers[i]] == Strip(values[i])
    {
      LastWins(headers, values, |headers|, i);
    }
  }

  /** Builds `column_values` for one data line (address_to_location.rb:64-68);
      `None` stands for the `nil.strip` exception on a row with too few fields. */
  method ParseRow(headers: seq<string>, line: string) returns (r: Option<map<string, string>>)
    ensures r.None? <==> !RowFits(headers, line)
    ensures r.Some? ==> r.value == RecordOf(headers, line)
  {
    var values := Split(line, Delimiter);
    var columnValues: map<string, string> := map[];
    var index := 0;
    while index < |headers|
      invariant index <= |headers| && index <= |values|
      invariant columnValues == RowFields(headers, values, index)
    {
      if index >= |values| {
        return None;
      }
      columnValues := columnValues[headers[index] := Strip(values[index])];
      index := index + 1;
    }
    r := Some(columnValues);
  }

  /** The entries for the data lines before line index `k`, each keyed by its
      line number minus one. */
  function Records(headers: seq<string>, lines: seq<string>, k: nat): (rs: seq<Entry>)
    requires 1 <= k <= |lines|
    requires forall n :: 1 <= n < k ==> RowFits(headers, lines[n])
    ensures |rs| == k - 1
  {
    if k == 1 then [] else Records(headers, lines, k - 1) + [Entry(k - 1, RecordOf(headers, lines[k - 1]))]
  }

  /** Entry `i` of the store holds line `i + 1` (0-based), under key `i + 1`:
      the records come in input order with keys 1, 2, 3, and so on. */
  lemma {:induction false} RecordsSpec(headers: seq<string>, lines: seq<string>, k: nat)
    requires 1 <= k <= |lines|
    requires forall n :: 1 <= n < k ==> RowFits(headers, lines[n])
    ensures forall i :: 0 <= i < k - 1 ==>
              Records(headers, lines, k)[i].key == i + 1 &&
              Records(headers, lines, k)[i].fields == RecordOf(headers, lines[i + 1])
  {
    if k > 1 {
      RecordsSpec(headers, lines, k - 1);
    }
  }

  /** Reads every line after the header into `file_contents`
      (address_to_location.rb:61-71): either the first row with too few
      fields is reported by its line number, or every line after the header
      becomes one entry. */
  method ReadRecords(headers: seq<string>, lines: seq<string>) returns (r: Result<seq<Entry>, InputError>)
    requires lines != []
    ensures r.Failure? ==>
              && r.error.MalformedRow?
              && 2 <= r.error.line <= |lines|
              && !RowFits(headers, lines[r.error.line - 1])
              && forall n :: 1 <= n < r.error.line - 1 ==> RowFits(headers, lines[n])
    ensures r.Success? ==>
              && (forall n :: 1 <= n < |lines| ==> RowFits(headers, lines[n]))
              && r.value == Records(headers, lines, |lines|)
  {
    var fileContents: seq<Entry> := [];
    // `lineno` counts the lines read so far, as `input_file.lineno` does
    var lineno := 1;
    while lineno < |lines|
      invariant 1 <= lineno <= |lines|
      invariant forall n :: 1 <= n < lineno ==> RowFits(headers, lines[n])
      invariant fileContents == Records(headers, lines, lineno)
    {
      var columnValues := ParseRow(headers, lines[lineno]);
      if columnValues.None? {
        return Failure(MalformedRow(lineno + 1));
      }
      fileContents := fileContents + [Entry(lineno, columnValues.value)];
      lineno := lineno + 1;
    }
    r := Success(fileContents);
  }

  /** Reads the header line and then the records (address_to_location.rb:58-71);
      an empty input fails at the first `readline`. */
  method ReadInput(lines: seq<string>) returns (r: Result<Table, InputError>)
    ensures lines == [] <==> r == Failure(EmptyInput)
    ensures r.Failure? && lines != [] ==>
              && r.error.MalformedRow?
              && 2 <= r.error.line <= |lines|
              && !RowFits(ParseHeaders(lines[0]), lines[r.error.line - 1])
              && forall n :: 1 <= n < r.error.line - 1 ==> RowFits(ParseHeaders(lines[0]), lines[n])
    ensures r.Success? ==>
              && lines != []
              && r.value.headers == ParseHeaders(lines[0])
              && (forall n :: 1 <= n < |lines| ==> RowFits(r.value.headers, lines[n]))
              && r.value.records == Records(r.value.headers, lines, |lines|)
  {
    if lines == [] {
      return Failure(EmptyInput);
    }
    var headers := ParseHeaders(lines[0]);
    var records := ReadRecords(headers, lines);
    match records
    case Failure(e) => r := Failure(e);
    case Success(fileContents) => r := Success(Table(headers, fileContents));
  }
}
