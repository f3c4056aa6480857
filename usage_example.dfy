/** The worked example in the header comment of address_to_location.rb
    (lines 8-19): an input header `ADDRESS;COUNTRY;SOME_IDENTIFIER`, a row
    `"some address";"NO";1`, and the lines the script writes for them.

    The literals are passed in as parameters equal to them, so that the
    verifier reasons about the parts instead of unfolding the recursive
    string functions over long literals. */
module UsageExample {
  import opened RubyStrings
  import opened RecordStore
  import opened Wrappers
  import opened GeocodeRequest
  import opened StatusClassifier
  import opened BatchDriver
  import opened OutputFormat

  /** A string of letters holds no `;`. */
  lemma LettersPlain(s: string)
    requires forall i :: 0 <= i < |s| ==> IsUpper(s[i]) || IsLower(s[i]) || s[i] == '_'
    ensures Delimiter !in s
  {
  }

  /** Three parts joined by `;`. */
  lemma Join3(x: string, y: string, z: string)
    ensures Join([x, y, z], Delimiter) == x + [Delimiter] + y + [Delimiter] + z
  {
    assert [x, y, z][1..] == [y, z];
    assert [y, z][1..] == [z];
    assert Join([y, z], Delimiter) == y + [Delimiter] + z;
    assert x + [Delimiter] + (y + [Delimiter] + z) == x + [Delimiter] + y + [Delimiter] + z;
  }

  /** A line of three `;`-free fields, the last not empty, splits into them. */
  lemma Split3(x: string, y: string, z: string)
    requires Delimiter !in x && Delimiter !in y && Delimiter !in z && z != ""
    ensures Split(x + [Delimiter] + y + [Delimiter] + z, Delimiter) == [x, y, z]
  {
    Join3(x, y, z);
    JoinSplit([x, y, z], Delimiter);
  }

  lemma PlainNames(a: string, c: string, d: string)
    requires a == "ADDRESS" && c == "COUNTRY" && d == "SOME_IDENTIFIER"
    ensures Delimiter !in a && Delimiter !in c && Delimiter !in d + "\n"
  {
    LettersPlain(a);
    LettersPlain(c);
    LettersPlain(d);
  }

  /** A value that neither starts nor ends with whitespace is its own strip,
      and it is also what is left of it followed by a line feed. */
  lemma StripTrimmed(d: string)
    requires d != [] && !IsSpace(d[0]) && !IsSpace(d[|d| - 1])
    ensures Strip(d) == d && Strip(d + "\n") == d
  {
    assert (d + "\n")[0] == d[0];
    assert (d + "\n")[..|d + "\n"| - 1] == d;
  }

  lemma DowncaseNames(a: string, c: string, d: string)
    requires a == "ADDRESS" && c == "COUNTRY" && d == "SOME_IDENTIFIER"
    ensures Downcase(a) == "address" && Downcase(c) == "country" && Downcase(d) == "some_identifier"
  {
  }

  /** The header line `ADDRESS;COUNTRY;SOME_IDENTIFIER` read from the file,
      with its line feed, gives the column names `address`, `country` and
      `some_identifier`. */
  lemma ExampleHeaders(a: string, c: string, d: string)
    requires a == "ADDRESS" && c == "COUNTRY" && d == "SOME_IDENTIFIER"
    ensures ParseHeaders(a + [Delimiter] + c + [Delimiter] + d + "\n") == ["address", "country", "some_identifier"]
  {
    var d' := d + "\n";
    PlainNames(a, c, d);
    Split3(a, c, d');
    assert a + [Delimiter] + c + [Delimiter] + d + "\n" == a + [Delimiter] + c + [Delimiter] + d';
    StripTrimmed(a);
    StripTrimmed(c);
    StripTrimmed(d);
    DowncaseNames(a, c, d);
  }

  /** Upper-cased names joined and followed by the coordinate columns. */
  lemma OutputHeaderShape(a: string, c: string, d: string)
    ensures OutputHeader([a, c, d]) ==
              Upcase(a) + [Delimiter] + Upcase(c) + [Delimiter] + Upcase(d) + [Delimiter] +
              Join(CoordinateColumns(), Delimiter)
  {
    var j := Join([a, c, d], Delimiter);
    var k := Join(CoordinateColumns(), Delimiter);
    Join3(a, c, d);
    UpcaseAppend(j + [Delimiter], k);
    UpcaseAppend(j, [Delimiter]);
    UpcaseAppend(a + [Delimiter] + c + [Delimiter], d);
    UpcaseAppend(a + [Delimiter] + c, [Delimiter]);
    UpcaseAppend(a + [Delimiter], c);
    UpcaseAppend(a, [Delimiter]);
    assert Upcase([Delimiter]) == [Delimiter];
    CoordinateColumnsPlain();
    UpcaseJoin(CoordinateColumns(), Delimiter);
  }

  lemma CoordinateColumnsJoined()
    ensures Join(CoordinateColumns(), Delimiter) == "UTM_EAST;UTM_NORTH;UTM_ZONE"
  {
    Join3(UtmEast, UtmNorth, UtmZone);
  }

  lemma UpcaseNames(a: string, c: string, d: string)
    requires a == "address" && c == "country" && d == "some_identifier"
    ensures Upcase(a) == "ADDRESS" && Upcase(c) == "COUNTRY" && Upcase(d) == "SOME_IDENTIFIER"
  {
  }

  lemma NamesText(a: string, c: string, d: string)
    requires a == "ADDRESS" && c == "COUNTRY" && d == "SOME_IDENTIFIER"
    ensures a + [Delimiter] + c + [Delimiter] + d + [Delimiter] == "ADDRESS;COUNTRY;SOME_IDENTIFIER;"
  {
    assert [Delimiter] == ";";
  }

  lemma HeaderLineText(names: string, k: string)
    requires names == "ADDRESS;COUNTRY;SOME_IDENTIFIER;" && k == "UTM_EAST;UTM_NORTH;UTM_ZONE"
    ensures names + k == "ADDRESS;COUNTRY;SOME_IDENTIFIER;UTM_EAST;UTM_NORTH;UTM_ZONE"
  {
  }

  /** The output header of the example is
      `ADDRESS;COUNTRY;SOME_IDENTIFIER;UTM_EAST;UTM_NORTH;UTM_ZONE`. */
  lemma ExampleOutputHeader(a: string, c: string, d: string)
    requires a == "address" && c == "country" && d == "some_identifier"
    ensures OutputHeader([a, c, d]) == "ADDRESS;COUNTRY;SOME_IDENTIFIER;UTM_EAST;UTM_NORTH;UTM_ZONE"
  {
    OutputHeaderShape(a, c, d);
    CoordinateColumnsJoined();
    UpcaseNames(a, c, d);
    var names := Upcase(a) + [Delimiter] + Upcase(c) + [Delimiter] + Upcase(d) + [Delimiter];
    NamesText(Upcase(a), Upcase(c), Upcase(d));
    HeaderLineText(names, Join(CoordinateColumns(), Delimiter));
  }

  lemma PlainValues(a: string, c: string, d: string)
    requires a == "\"some address\"" && c == "\"NO\"" && d == "1\n"
    ensures Delimiter !in a && Delimiter !in c && Delimiter !in d
  {
  }

  /** The hash of the example row: the quotes around the values stay, only
      the line feed after the last value is stripped. */
  lemma ExampleRecord(headers: seq<string>, a: string, c: string, d: string)
    requires headers == ["address", "country", "some_identifier"]
    requires a == "\"some address\"" && c == "\"NO\"" && d == "1"
    ensures RowFits(headers, a + [Delimiter] + c + [Delimiter] + d + "\n")
    ensures RecordOf(headers, a + [Delimiter] + c + [Delimiter] + d + "\n") ==
              map["address" := a, "country" := c, "some_identifier" := d]
  {
    var d' := d + "\n";
    PlainValues(a, c, d');
    Split3(a, c, d');
    assert a + [Delimiter] + c + [Delimiter] + d + "\n" == a + [Delimiter] + c + [Delimiter] + d';
    StripTrimmed(a);
    StripTrimmed(c);
    StripTrimmed(d);
    var values := [a, c, d'];
    assert RowFields(headers, values, 3) == RowFields(headers, values, 2)["some_identifier" := d];
    assert RowFields(headers, values, 2) == RowFields(headers, values, 1)["country" := c];
    assert RowFields(headers, values, 1) == map["address" := a];
  }

  lemma RowText(a: string, c: string, d: string, utm: Utm)
    requires a == "\"some address\"" && c == "\"NO\"" && d == "1"
    requires utm == Utm("1234.123", "2345.2345", "32V")
    ensures a + [Delimiter] + c + [Delimiter] + d + [Delimiter] + Coordinates(utm) ==
              "\"some address\";\"NO\";1;1234.123;2345.2345;\"32V\""
  {
  }

  /** The example row, with its request attached, is written as
      `"some address";"NO";1;1234.123;2345.2345;"32V"` when the projection
      prints the easting `1234.123`, the northing `2345.2345` and the zone
      `32V`: the request is not a column of the header, so it is not written. */
  lemma ExampleRow(headers: seq<string>, line: string, request: string, utm: Utm)
    requires headers == ["address", "country", "some_identifier"]
    requires line == "\"some address\";\"NO\";1\n"
    requires utm == Utm("1234.123", "2345.2345", "32V")
    ensures RowFits(headers, line)
    ensures FormatRow(headers, RecordOf(headers, line)[RequestKey := request], utm) ==
              "\"some address\";\"NO\";1;1234.123;2345.2345;\"32V\""
  {
    var a, c, d := "\"some address\"", "\"NO\"", "1";
    assert line == a + [Delimiter] + c + [Delimiter] + d + "\n";
    ExampleRecord(headers, a, c, d);
    var value := RecordOf(headers, line)[RequestKey := request];
    assert Lookup(value, headers[0]) == a && Lookup(value, headers[1]) == c && Lookup(value, headers[2]) == d;
    assert headers[1..][1..][1..] == [];
    assert Cells(headers[1..][1..], value) == d + [Delimiter] + "";
    assert Cells(headers[1..], value) == c + [Delimiter] + Cells(headers[1..][1..], value);
    assert Cells(headers, value) == a + [Delimiter] + Cells(headers[1..], value);
    assert Cells(headers, value) == a + [Delimiter] + c + [Delimiter] + d + [Delimiter];
    RowText(a, c, d, utm);
  }

  /** Four records answered `OK`, `ZERO_RESULTS`, `OVER_QUERY_LIMIT` and `OK`:
      the first record is written, the second is skipped, the batch breaks
      at the third after sending its request, and the fourth is never
      requested nor written. No pause comes before so few requests. */
  lemma ExampleBatch(headers: seq<string>, records: seq<Entry>, rs: seq<Response>)
    requires |records| == 4 && |rs| == 4
    requires forall i :: 0 <= i < |records| ==> HasRequest(records[i])
    requires rs[0].status == Some(Ok) && rs[0].location.Some?
    requires rs[1].status == Some(ZeroResults)
    requires rs[2].status == Some(OverQueryLimit)
    requires rs[3].status == Some(Ok)
    ensures BatchOf(headers, records, rs).rows == [FormatRow(headers, records[0].fields, rs[0].location.value)]
    ensures BatchOf(headers, records, rs).end == Halted(2)
    ensures BatchOf(headers, records, rs).requests ==
              [records[0].fields[RequestKey], records[1].fields[RequestKey], records[2].fields[RequestKey]]
    ensures BatchOf(headers, records, rs).pauses == []
  {
    ClassifySpec(rs[0].status);
    ClassifySpec(rs[1].status);
    ClassifySpec(rs[2].status);
    assert !Halts(rs[0]) && !Halts(rs[1]) && Halts(rs[2]);
    assert HaltAt(rs[2..]) == 0;
    assert rs[1..][1..] == rs[2..];
    assert HaltAt(rs) == 2;
    assert Processed(rs) == 3;
    assert PauseIndices(3) == [] by {
      assert !Paces(0) && !Paces(1) && !Paces(2);
    }
    assert RowsUpTo(headers, records, rs, 1) == [FormatRow(headers, records[0].fields, rs[0].location.value)];
  }
}
