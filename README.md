# address_to_location, modelled in Dafny

`address_to_location.rb` is a batch script. It reads a `;`-separated file of
addresses whose header names at least an `ADDRESS` and a `COUNTRY` column. For
each record it asks the Google Maps Geocoding API for the location, and it
writes the input columns back out followed by the UTM easting, northing and
zone of the first result.

This project models the deterministic part of that script: everything
between the input lines and the output lines, once three things are taken
as given:

- the replies of the service;
- the JSON decoding;
- the UTM projection.

It is split into these modules:

- `RubyStrings` (`ruby_strings.dfy`): the Ruby string operations the script
  relies on. These are `String#split` with a one-character separator (trailing
  empty fields dropped), `strip`, `downcase`, `upcase`, `Array#join` and
  `gsub` of a single character.
- `CgiEscape` (`cgi_escape.dfy`): `CGI.escape`. It encodes the value as
  UTF-8 and keeps the unreserved characters of section 2.3 of RFC 3986. A
  space becomes `+`, and every other byte becomes `%` followed by two
  upper-case hexadecimal digits, as in section 2.1 of RFC 3986. It comes with
  a decoder, `Unescape`, used to state the round trip.
- `RecordStore` (`record_store.dfy`): reading the header line and the
  records, with the failures the script dies of. An empty file fails at
  `readline`. A row with fewer fields than the header fails on `nil.strip`.
- `GeocodeRequest` (`geocode_request.dfy`): the request URL of every
  record. A record without an `address` or `country` column fails on
  `nil.gsub`.
- `StatusClassifier` (`status_classifier.dfy`): `handle_status?` and the
  proceed / `next` / `break` decision taken on a reply.
- `OutputFormat` (`output_format.dfy`): the output header line and the
  data rows.
- `BatchDriver` (`batch_driver.dfy`): the loop over the records, and
  `Convert`, the whole script from input lines and replies to output lines.
- `UsageExample` (`usage_example.dfy`): the worked example of the script's
  header comment, proved on the model, and a short batch that shows the
  skip and the break.

The loops of the script become methods with loop invariants:

- the row parser `ParseRow`;
- the record reader `ReadRecords`;
- the request pass `AttachRequests`;
- the row writer `WriteRow`;
- the driver `RunBatch`.

Each is proved against a specification function: `RecordOf`, `Records`,
`WithRequest`, `FormatRow` and `BatchOf`. The properties of those functions
are proved as lemmas.

## Model

| member | source | states |
|---|---|---|
| RubyStrings.StripSpec | address_to_location.rb:59 | `strip` gives the middle of the string. What it removes at either end is whitespace (NUL, tab, line feed, vertical tab, form feed, carriage return, space), and the result neither starts nor ends with whitespace. |
| RubyStrings.StripIdempotent | address_to_location.rb:67 | Stripping a stripped value changes nothing. |
| RubyStrings.StripChars | address_to_location.rb:67 | A stripped value holds no character the raw value did not hold. |
| RubyStrings.DowncaseSpec | address_to_location.rb:59 | `downcase` turns each upper-case letter into the same letter in lower case, leaves no upper-case letter and changes no other character. |
| RubyStrings.UpcaseSpec | address_to_location.rb:111 | `upcase` turns each lower-case letter into the same letter in upper case, leaves no lower-case letter and changes no other character. |
| RubyStrings.UpcaseDowncase | address_to_location.rb:111 | Upper-casing a lower-cased name gives the upper-case form of the original name. |
| RubyStrings.UpcaseJoin | address_to_location.rb:111 | Upper-casing a `;`-join is joining the upper-cased parts. |
| RubyStrings.SplitSpec | address_to_location.rb:64 | `split(';')` gives the `;`-separated fields up to the last non-empty one. No field holds `;`, only empty fields are dropped, and joining all the fields gives the string back. |
| RubyStrings.JoinSplit | address_to_location.rb:111 | Splitting a join of `;`-free parts whose last part is not empty gives the parts back. |
| RubyStrings.JoinAppend | address_to_location.rb:111 | Joining two non-empty lists is joining each and putting the separator between the two joins. |
| RubyStrings.RemoveAllSpec | address_to_location.rb:78-79 | `gsub(/"/, '')` leaves no `"`, keeps every other character with its multiplicity and leaves a quote-free value unchanged. |
| RubyStrings.RemoveAllAppend | address_to_location.rb:78-79 | `gsub(/"/, '')` drops a `"`, keeps any other character, and works piece by piece on a concatenation, so the other characters stay in order. |
| CgiEscape.Escape | address_to_location.rb:78-79 | No `&`, `=`, `?`, `#`, `;`, `"` or space survives `CGI.escape`. |
| CgiEscape.EscapeSafe | address_to_location.rb:78-79 | Every character of an escaped value is an unreserved character, `+` or `%`. |
| CgiEscape.UnescapeEscape | address_to_location.rb:78-79 | Decoding the escaped value gives the UTF-8 bytes of the value, so escaping loses nothing. |
| CgiEscape.EscapePlain | address_to_location.rb:79 | A value of unreserved ASCII characters, such as a country code, passes through unchanged. |
| CgiEscape.Utf8Ascii | address_to_location.rb:78-79 | An ASCII value is encoded as its own code points. |
| RecordStore.ParseHeaders | address_to_location.rb:59 | There is one column name per field of the split header line. |
| RecordStore.HeadersSpec | address_to_location.rb:59 | The column names are the `;`-separated fields of the header line, in order, each stripped and lower-cased. None holds `;`, an upper-case letter or surrounding whitespace. |
| RecordStore.RowFieldsSpec | address_to_location.rb:65-68 | A row hash binds exactly the column names. When no value holds `;`, neither does any bound value. |
| RecordStore.LastWins | address_to_location.rb:66-68 | A column name is bound to the stripped value at its last position among the headers. |
| RecordStore.ExtraFieldsIgnored | address_to_location.rb:64-68 | Fields beyond the number of columns do not affect the row hash. |
| RecordStore.RecordSpec | address_to_location.rb:64-68 | A parsed record binds exactly the column names. Each name's last position gives its stripped value, and no value holds `;`. |
| RecordStore.ParseRow | address_to_location.rb:64-68 | A row with fewer fields than columns fails, which models `nil.strip`. Any other row gives `RecordOf` of the header and the row. |
| RecordStore.RecordsSpec | address_to_location.rb:70 | The i-th entry is keyed `i + 1` (the line number minus one) and holds the record of that line, in input order. |
| RecordStore.ReadRecords | address_to_location.rb:61-71 | The read fails at the first row with too few fields, reporting its line number. Otherwise every line after the header becomes one entry, in order. |
| RecordStore.ReadInput | address_to_location.rb:58-71 | An empty input fails, as `readline` does, and nothing else fails that way. The header line gives the column names, and then come the records or the first short row. |
| GeocodeRequest.Unquote | address_to_location.rb:78-79 | The value handed to `CGI.escape` holds no `"`. |
| GeocodeRequest.QuotesIgnored | address_to_location.rb:78-79 | Quotes in the raw address or country make no difference to the request. |
| GeocodeRequest.QueryFields | address_to_location.rb:80 | Splitting the query on `&` gives the address parameter, the country component and the fields of `key=` followed by the key. |
| GeocodeRequest.RequestDecodes | address_to_location.rb:76-81 | The request is the base URL, `?` and the query. With a key free of `&`, the query has exactly three parameters. The address and country parameters decode to the UTF-8 bytes of the quote-free values, and the last parameter is `key=` followed by the key. |
| GeocodeRequest.RequestNoDelimiter | address_to_location.rb:81-82 | The request holds no `;` unless the API key does. |
| GeocodeRequest.MissingIn | address_to_location.rb:78-79 | The first missing column is reported: the address before the country. There is none exactly when both are present. |
| GeocodeRequest.AttachRequests | address_to_location.rb:77-83 | The pass succeeds exactly when every record has both columns. Each record then keeps its key and columns and gains `request`, the URL built from its own address and country. Otherwise the first record lacking a column fails, with its key and the column. |
| StatusClassifier.HandleStatus | address_to_location.rb:85-105 | The batch stops if and only if the status is `OVER_QUERY_LIMIT`. |
| StatusClassifier.ClassifySpec | address_to_location.rb:124-126 | Exactly `OK` proceeds and exactly `OVER_QUERY_LIMIT` breaks. Any other status, absent or unknown ones included, goes to `next`. |
| StatusClassifier.NamedStatusesContinue | address_to_location.rb:89-102 | `ZERO_RESULTS`, `REQUEST_DENIED`, `INVALID_REQUEST`, `UNKNOWN_ERROR`, a missing status and any other status but `OVER_QUERY_LIMIT` let the batch go on. |
| OutputFormat.OutputHeaderFields | address_to_location.rb:111 | The header line splits into the upper-cased column names followed by `UTM_EAST`, `UTM_NORTH` and `UTM_ZONE`. With no column names it starts with one empty field. |
| OutputFormat.WriteRow | address_to_location.rb:133-138 | The line built with `<<` is `FormatRow`: each value in header order followed by `;`, then `e;n;"zone"`. |
| OutputFormat.CellsJoin | address_to_location.rb:134-136 | The `;`-terminated values followed by a joined tail are one `;`-join of the values and the tail. |
| OutputFormat.RowFieldsBack | address_to_location.rb:133-138 | When no value and no coordinate part holds `;`, splitting a row gives back the values in header order and the three coordinate fields, three more fields than there are columns. |
| BatchDriver.PauseIndicesSpec | address_to_location.rb:116 | The loop pauses before exactly the indices `i` with `(i + 1) % 50 == 0`, that is 49, 99, 149 and so on: `k / 50` pauses over `k` records. |
| BatchDriver.HaltAt | address_to_location.rb:124-131 | This is the first reply that ends the loop (`OVER_QUERY_LIMIT`, or `OK` without a result). No earlier reply ends it. |
| BatchDriver.RunBatch | address_to_location.rb:114-140 | The loop's rows, pauses, requests and ending are those of `BatchOf`. |
| BatchDriver.OkIndices | address_to_location.rb:124-138 | The `OK` indices all lie below the bound. |
| BatchDriver.OkIndicesSpec | address_to_location.rb:124-138 | The `OK` indices are strictly increasing and are exactly the records with an `OK` reply. |
| BatchDriver.RowsSubsequence | address_to_location.rb:114-140 | The rows are an order-preserving subsequence of the records. The m-th row is the row of the m-th `OK` record, and no other record gets a row. |
| BatchDriver.RowsPrefix | address_to_location.rb:125-139 | Rows once written are kept: the rows of a shorter prefix are a prefix of the rows of a longer one. |
| BatchDriver.EndOfSpec | address_to_location.rb:114-131 | The run completes exactly when no reply ends it. A break happens at an `OVER_QUERY_LIMIT` reply, and a crash at an `OK` reply without a result. Nothing ended the loop earlier, and no later request is sent. Requests go out in record order. |
| BatchDriver.RowsFieldsBack | address_to_location.rb:133-139 | When no value of a record and no printed coordinate part holds `;`, every row written splits into the values of its record in header order and the three coordinate fields. |
| BatchDriver.WithRequests | address_to_location.rb:77-83 | Every record carries a request after the pass. |
| BatchDriver.WithRequestsPlain | address_to_location.rb:82 | No value written back holds `;`. The only exception is a column named `request` together with an API key that holds `;`. |
| BatchDriver.Convert | address_to_location.rb:58-140 | The whole script. It fails, writing nothing, on an empty input, on the first short row or on the first record without an address or country. Otherwise it writes the header line followed by the rows of `BatchOf` over the records with their requests. |
| UsageExample.ExampleHeaders | address_to_location.rb:59 | As in the usage comment (lines 8-19), the header line `ADDRESS;COUNTRY;SOME_IDENTIFIER` with its line feed gives the column names `address`, `country` and `some_identifier`. |
| UsageExample.ExampleOutputHeader | address_to_location.rb:111 | Those column names give the output header `ADDRESS;COUNTRY;SOME_IDENTIFIER;UTM_EAST;UTM_NORTH;UTM_ZONE`. |
| UsageExample.ExampleRecord | address_to_location.rb:64-68 | The row `"some address";"NO";1` becomes the hash binding `address`, `country` and `some_identifier` to `"some address"`, `"NO"` and `1`; the quotes stay and the line feed goes. |
| UsageExample.ExampleRow | address_to_location.rb:133-138 | With its request attached and the projection printing `1234.123`, `2345.2345` and `32V`, that row is written as `"some address";"NO";1;1234.123;2345.2345;"32V"`. |
| UsageExample.ExampleBatch | address_to_location.rb:114-140 | Over replies `OK`, `ZERO_RESULTS`, `OVER_QUERY_LIMIT`, `OK` the loop writes only the first record's row, sends three requests in order, breaks at index 2 and pauses nowhere. |

## Left out

- Command-line handling, the existence check on the input file, opening and
  closing files, and the `puts` messages are I/O
  (address_to_location.rb:29-55, 91-101, 108, 142). The input is a sequence
  of lines, each with its line terminator, and the output is a sequence of
  lines without the newline `puts` adds.
- The HTTP request, `URI(request)` and `JSON.parse` are replaced by a sequence
  of responses given in advance, one per record. A response holds:
  - the `status` and `error_message` members;
  - the projected first result, or `None` when there is none.

  A `URI::InvalidURIError` on a request that is not a valid URI is not
  modelled. Nor is a `status` that is not a JSON string. Nor is a
  `Net::HTTP.get` that raises (a connection error or a timeout), or a
  `JSON.parse` of a body that is not JSON: either ends the script inside
  the loop, keeping the rows already written, as `Crashed` does.
- BatchDriver.Convert: requires one response per record, because the service
  is a parameter. Responses for records after the loop ends are never read.
- The UTM projection (`GeoUtm::LatLon#to_utm`) is third-party floating-point
  code. It is an opaque `Utm` of three printed strings: easting, northing and
  zone.
- `sleep(1)` is not performed; the model only records the indices before
  which it happens.
- RubyStrings.DowncaseSpec and RubyStrings.UpcaseSpec: `Downcase` and `Upcase`
  map only the ASCII letters.
  Ruby maps the full Unicode case tables.
- CgiEscape.Escape: Dafny characters are Unicode scalar values. A Ruby
  string with an invalid encoding, which `CGI.escape` escapes byte by byte,
  is not modelled.
- GeocodeRequest.AttachRequests: the script adds `request` to each record
  hash in place. The model builds new entries, which is the same because no
  hash is shared.
- The forced-zone override is not implemented in address_to_location.rb, so
  it is not modelled.
- The pacing rule follows the code: the pause comes before the request at
  0-based index `i` when `(i + 1) % 50 == 0`. That is before the 50th, 100th
  and later requests, not after them.
- An `OK` reply without a result raises inside the loop. The model ends the
  run there as `Crashed`, keeping the rows already written, which Ruby
  flushes when it exits.
- A column named `request` is overwritten by the request URL (line 82), so
  the output carries the URL in that column. This is modelled as written.
