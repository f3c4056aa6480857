/** The output file's lines (address_to_location.rb:111 and 133-138): the
    header line names the input columns and the three coordinate columns in
    upper case, and a data row repeats the record's values in header order,
    each followed by `;`, then the easting, the northing and the quoted zone. */
module OutputFormat {
  import opened RubyStrings
  import opened RecordStore

  const UtmEast: string := "UTM_EAST"
  const UtmNorth: string := "UTM_NORTH"
  const UtmZone: string := "UTM_ZONE"

  /** The coordinate columns of the output, in order. */
  function CoordinateColumns(): (columns: seq<string>) {
    [UtmEast, UtmNorth, UtmZone]
  }

  /** A projected coordinate as it is printed: easting, northing and zone. */
  datatype Utm = Utm(east: string, north: string, zone: string)

  /** The output header line (address_to_location.rb:111). */
  function OutputHeader(headers: seq<string>): (header: string)
  {
    Upcase(Join(headers, Delimiter) + [Delimiter] + Join(CoordinateColumns(), Delimiter))
  }

  lemma CoordinateColumnsPlain()
    ensures forall k :: 0 <= k < 3 ==> Delimiter !in CoordinateColumns()[k]
    ensures UpcaseAll(CoordinateColumns()) == CoordinateColumns()
  {
    var cs := CoordinateColumns();
    UpcaseFixed(UtmEast);
    UpcaseFixed(UtmNorth);
    UpcaseFixed(UtmZone);
    assert UpcaseAll(cs)[0] == cs[0] && UpcaseAll(cs)[1] == cs[1] && UpcaseAll(cs)[2] == cs[2];
  }

  /** Splitting the output header on `;` gives the column names in upper case
      followed by `UTM_EAST`, `UTM_NORTH` and `UTM_ZONE`; with no column names
      at all the header starts with an empty field. */
  lemma OutputHeaderFields(headers: seq<string>)
    requires forall i :: 0 <= i < |headers| ==> Delimiter !in headers[i]
    ensures Split(OutputHeader(headers), Delimiter) ==
              (if headers == [] then [""] else UpcaseAll(headers)) + CoordinateColumns()
  {
    var named := if headers == [] then [""] else headers;
    var cs := CoordinateColumns();
    assert Join(named, Delimiter) == Join(headers, Delimiter);
    JoinAppend(named, cs, Delimiter);
    UpcaseJoin(named + cs, Delimiter);
    CoordinateColumnsPlain();
    assert UpcaseAll(named + cs) == UpcaseAll(named) + cs by {
      assert UpcaseAll(named + cs) == UpcaseAll(named) + UpcaseAll(cs);
    }
    var parts := UpcaseAll(named) + cs;
    forall k | 0 <= k < |parts| ensures Delimiter !in parts[k] {
      if k < |named| {
        UpcaseKeepsAbsent(named[k], Delimiter);
      }
    }
    assert parts[|parts| - 1] == UtmZone;
    JoinSplit(parts, Delimiter);
  }

  /** `"#{value[header]}"`: a column the record lacks prints as the empty string. */
  function Lookup(value: map<string, string>, header: string): (v: string) {
    if header in value then value[header] else ""
  }

  /** The values a row passes through, in header order. */
  function Values(headers: seq<string>, value: map<string, string>): (r: seq<string>)
    ensures |r| == |headers|
  {
    seq(|headers|, i requires 0 <= i < |headers| => Lookup(value, headers[i]))
  }

  /** Each value of the row, in header order, followed by `;`. */
  function Cells(headers: seq<string>, value: map<string, string>): (cells: string)
  {
    if headers == [] then "" else Lookup(value, headers[0]) + [Delimiter] + Cells(headers[1..], value)
  }

  /** The zone in double quotes. */
  function Quote(s: string): (quoted: string) {
    "\"" + s + "\""
  }

  /** The coordinate part of a row: `e;n;"zone"`. */
  function Coordinates(utm: Utm): (coords: string) {
    utm.east + [Delimiter] + utm.north + [Delimiter] + Quote(utm.zone)
  }

  /** One output row (address_to_location.rb:133-138). */
  function FormatRow(headers: seq<string>, value: map<string, string>, utm: Utm): (row: string)
  {
    Cells(headers, value) + Coordinates(utm)
  }

  /** One more column adds its value and a `;` at the end. */
  lemma {:induction false} CellsSnoc(headers: seq<string>, value: map<string, string>, h: string)
    ensures Cells(headers + [h], value) == Cells(headers, value) + Lookup(value, h) + [Delimiter]
  {
    if headers != [] {
      CellsSnoc(headers[1..], value, h);
      assert (headers + [h])[1..] == headers[1..] + [h];
    } else {
      assert ([] + [h])[1..] == [];
    }
  }

  /** Builds `out_line` with `<<` (address_to_location.rb:133-138). */
  method WriteRow(headers: seq<string>, value: map<string, string>, utm: Utm) returns (outLine: string)
    ensures outLine == FormatRow(headers, value, utm)
  {
    outLine := "";
    var i := 0;
    while i < |headers|
      invariant i <= |headers|
      invariant outLine == Cells(headers[..i], value)
    {
      CellsSnoc(headers[..i], value, headers[i]);
      assert headers[..i + 1] == headers[..i] + [headers[i]];
      outLine := outLine + Lookup(value, headers[i]) + [Delimiter];
      i := i + 1;
    }
    assert headers[..i] == headers;
    outLine := outLine + (utm.east + [Delimiter] + utm.north + [Delimiter] + "\"" + utm.zone + "\"");
  }

  /** The cells followed by a joined tail are one join of the values and the tail. */
  lemma {:induction false} CellsJoin(headers: seq<string>, value: map<string, string>, tail: seq<string>)
    requires |tail| >= 1
    ensures Cells(headers, value) + Join(tail, Delimiter) == Join(Values(headers, value) + tail, Delimiter)
  {
    if headers == [] {
      assert Values(headers, value) + tail == tail;
    } else {
      CellsJoin(headers[1..], value, tail);
      var vs := Values(headers, value) + tail;
      assert vs[1..] == Values(headers[1..], value) + tail;
    }
  }

  /** Splitting a row on `;` gives back the record's values in header order
      followed by the easting, the northing and the quoted zone, so the row
      has three fields more than there are columns, provided no value and no
      part of the coordinate holds a `;`. */
  lemma RowFieldsBack(headers: seq<string>, value: map<string, string>, utm: Utm)
    requires forall i :: 0 <= i < |headers| ==> Delimiter !in Lookup(value, headers[i])
    requires Delimiter !in utm.east && Delimiter !in utm.north && Delimiter !in utm.zone
    ensures Split(FormatRow(headers, value, utm), Delimiter) ==
              Values(headers, value) + [utm.east, utm.north, Quote(utm.zone)]
    ensures |Split(FormatRow(headers, value, utm), Delimiter)| == |headers| + 3
  {
    var tail := [utm.east, utm.north, Quote(utm.zone)];
    assert Join(tail, Delimiter) == Coordinates(utm) by {
      var q := Quote(utm.zone);
      assert tail[1..] == [utm.north, q];
      assert tail[1..][1..] == [q];
      assert Join(tail[1..], Delimiter) == utm.north + [Delimiter] + q;
      assert utm.east + [Delimiter] + (utm.north + [Delimiter] + q) == utm.east + [Delimiter] + utm.north + [Delimiter] + q;
    }
    CellsJoin(headers, value, tail);
    var parts := Values(headers, value) + tail;
    assert parts[|parts| - 1] == Quote(utm.zone);
    JoinSplit(parts, Delimiter);
  }
}
