/** The driver loop of address_to_location.rb (lines 107-140) and the whole
    conversion from input lines to output lines. The network call, the JSON
    decoding and the UTM projection are replaced by a sequence of responses,
    the i-th of which answers the i-th request. */
module BatchDriver {
  import opened Wrappers
  import opened RubyStrings
  import opened RecordStore
  import opened GeocodeRequest
  import opened StatusClassifier
  import opened OutputFormat

  /** The parsed reply to one request: its `status` and `error_message`
      members (`None` when absent) and the projected location of the first
      result (`None` when there is no first result). */
  datatype Response = Response(status: Option<string>, errorMessage: Option<string>, location: Option<Utm>)

  /** How the loop ended: after the last record, at a `break` on the record
      at `index`, or with an exception while reading the first result of the
      record at `index` (a reply `OK` without results). */
  datatype End = Completed | Halted(index: nat) | Crashed(index: nat)

  /** What one run of the loop does: the rows it writes, the indices before
      which it sleeps, the requests it sends, in order, and how it ends. */
  datatype Run = Run(rows: seq<string>, pauses: seq<nat>, requests: seq<string>, end: End)

  /** The service's usage limit: one pause per this many requests. */
  const PaceEvery: nat := 50

  /** `sleep(1) if (index + 1) % 50 == 0` (address_to_location.rb:116). */
  predicate Paces(index: nat) {
    (index + 1) % PaceEvery == 0
  }

  /** The indices before which a loop over the first `k` records pauses. */
  function PauseIndices(k: nat): (pauses: seq<nat>)
  {
    if k == 0 then [] else PauseIndices(k - 1) + (if Paces(k - 1) then [k - 1] else [])
  }

  /** A loop pauses before exactly the records at indices 49, 99, 149, ...:
      the 50th, 100th, 150th request and so on, never before the first 49. */
  lemma {:induction false} PauseIndicesSpec(k: nat)
    ensures |PauseIndices(k)| == k / PaceEvery
    ensures forall j :: 0 <= j < |PauseIndices(k)| ==> PauseIndices(k)[j] == PaceEvery * j + PaceEvery - 1
    ensures forall i: nat :: i in PauseIndices(k) <==> i < k && Paces(i)
  {
    if k > 0 {
      PauseIndicesSpec(k - 1);
      var tail: seq<nat> := if Paces(k - 1) then [k - 1] else [];
      assert forall i: nat :: i in PauseIndices(k) <==> i in PauseIndices(k - 1) || i in tail;
      if Paces(k - 1) {
        assert k / PaceEvery == (k - 1) / PaceEvery + 1;
        assert k - 1 == PaceEvery * ((k - 1) / PaceEvery) + PaceEvery - 1;
      } else {
        assert k / PaceEvery == (k - 1) / PaceEvery;
      }
    }
  }

  /** A response that ends the loop: `OVER_QUERY_LIMIT`, or `OK` without a result. */
  predicate Halts(r: Response) {
    Classify(r.status) == Halt || (Classify(r.status) == Proceed && r.location.None?)
  }

  /** The index of the first response that ends the loop, or the number of
      responses when none does. */
  function HaltAt(rs: seq<Response>): (n: nat)
    ensures n <= |rs|
    ensures forall j :: 0 <= j < n ==> !Halts(rs[j])
    ensures n < |rs| ==> Halts(rs[n])
  {
    if rs == [] then 0
    else if Halts(rs[0]) then 0
    else 1 + HaltAt(rs[1..])
  }

  /** How a run over these responses ends. */
  function EndOf(rs: seq<Response>): (end: End)
  {
    var n := HaltAt(rs);
    if n == |rs| then Completed
    else if Classify(rs[n].status) == Halt then Halted(n)
    else Crashed(n)
  }

  /** The number of records whose request is sent: all of them, or those up
      to and including the one that ends the loop. */
  function Processed(rs: seq<Response>): (k: nat)
    ensures k <= |rs|
  {
    var n := HaltAt(rs);
    if n == |rs| then n else n + 1
  }

  /** A record whose request was built. */
  predicate HasRequest(e: Entry) {
    RequestKey in e.fields
  }

  /** The requests of the first `k` records. */
  function RequestsOf(records: seq<Entry>, k: nat): (r: seq<string>)
    requires k <= |records|
    requires forall i :: 0 <= i < |records| ==> HasRequest(records[i])
    ensures |r| == k
  {
    seq(k, i requires 0 <= i < k => assert HasRequest(records[i]); records[i].fields[RequestKey])
  }

  /** The rows written for the first `k` records, none of which ends the loop. */
  function RowsUpTo(headers: seq<string>, records: seq<Entry>, rs: seq<Response>, k: nat): (rows: seq<string>)
    requires |rs| == |records| && k <= |rs|
    requires forall j :: 0 <= j < k ==> !Halts(rs[j])
  {
    if k == 0 then []
    else
      RowsUpTo(headers, records, rs, k - 1) +
      (if Classify(rs[k - 1].status) == Proceed
       then assert !Halts(rs[k - 1]); [FormatRow(headers, records[k - 1].fields, rs[k - 1].location.value)]
       else [])
  }

  /** The run the loop makes over these records and responses. */
  function BatchOf(headers: seq<string>, records: seq<Entry>, rs: seq<Response>): (run: Run)
    requires |rs| == |records|
    requires forall i :: 0 <= i < |records| ==> HasRequest(records[i])
  {
    Run(RowsUpTo(headers, records, rs, HaltAt(rs)), PauseIndices(Processed(rs)),
        RequestsOf(records, Processed(rs)), EndOf(rs))
  }

  /** The loop over the records (address_to_location.rb:114-140): it pauses
      where the pacing rule says, sends each record's request, writes a row
      for an `OK` reply, goes on past any other reply `handle_status?`
      accepts, stops at `OVER_QUERY_LIMIT`, and dies at an `OK` reply
      without a result. */
  method RunBatch(headers: seq<string>, records: seq<Entry>, responses: seq<Response>) returns (run: Run)
    requires |responses| == |records|
    requires forall i :: 0 <= i < |records| ==> HasRequest(records[i])
    ensures run == BatchOf(headers, records, responses)
  {
    var rows: seq<string> := [];
    var pauses: seq<nat> := [];
    var requests: seq<string> := [];
    var end := Completed;
    var index := 0;
    while index < |records|
      invariant index <= |records|
      invariant forall j :: 0 <= j < index ==> !Halts(responses[j])
      invariant rows == RowsUpTo(headers, records, responses, index)
      invariant pauses == PauseIndices(index)
      invariant requests == RequestsOf(records, index)
    {
      if Paces(index) {
        pauses := pauses + [index];
      }
      var value := records[index].fields;
      var request := value[RequestKey];
      requests := requests + [request];
      var response := responses[index];
      if response.status != Some(Ok) {
        if HandleStatus(response.status) {
          index := index + 1;
          continue;
        }
        end := Halted(index);
        break;
      }
      if response.location.None? {
        // `nil[...]` raises: the rows written so far stay in the output
        end := Crashed(index);
        break;
      }
      var outLine := WriteRow(headers, value, response.location.value);
      rows := rows + [outLine];
      index := index + 1;
    }
    run := Run(rows, pauses, requests, end);
  }

  /** The indices among the first `k` whose reply is `OK`, in increasing order. */
  function OkIndices(rs: seq<Response>, k: nat): (ix: seq<nat>)
    requires k <= |rs|
    ensures forall m :: 0 <= m < |ix| ==> ix[m] < k
  {
    if k == 0 then []
    else OkIndices(rs, k - 1) + (if Classify(rs[k - 1].status) == Proceed then [k - 1] else [])
  }

  /** The `OK` indices are strictly increasing and are exactly the records
      below `k` with an `OK` reply. */
  lemma {:induction false} OkIndicesSpec(rs: seq<Response>, k: nat)
    requires k <= |rs|
    ensures forall m, m' :: 0 <= m < m' < |OkIndices(rs, k)| ==> OkIndices(rs, k)[m] < OkIndices(rs, k)[m']
    ensures forall j: nat :: j in OkIndices(rs, k) <==> j < k && Classify(rs[j].status) == Proceed
  {
    if k > 0 {
      OkIndicesSpec(rs, k - 1);
      var tail: seq<nat> := if Classify(rs[k - 1].status) == Proceed then [k - 1] else [];
      assert forall j: nat :: j in OkIndices(rs, k) <==> j in OkIndices(rs, k - 1) || j in tail;
    }
  }

  /** The rows are an order-preserving subsequence of the records: the m-th
      row is the row of the m-th record with an `OK` reply, so every `OK`
      record before the end gets exactly one row and no other record does. */
  lemma {:induction false} RowsSubsequence(headers: seq<string>, records: seq<Entry>, rs: seq<Response>, k: nat)
    requires |rs| == |records| && k <= |rs|
    requires forall j :: 0 <= j < k ==> !Halts(rs[j])
    ensures |RowsUpTo(headers, records, rs, k)| == |OkIndices(rs, k)|
    ensures forall m :: 0 <= m < |OkIndices(rs, k)| ==>
              var j := OkIndices(rs, k)[m];
              Classify(rs[j].status) == Proceed && rs[j].location.Some? &&
              RowsUpTo(headers, records, rs, k)[m] == FormatRow(headers, records[j].fields, rs[j].location.value)
  {
    if k > 0 {
      RowsSubsequence(headers, records, rs, k - 1);
      OkIndicesSpec(rs, k);
    }
  }

  /** Rows once written stay: the rows for a shorter prefix of the records
      are a prefix of the rows for a longer one. */
  lemma {:induction false} RowsPrefix(headers: seq<string>, records: seq<Entry>, rs: seq<Response>, k: nat, k': nat)
    requires |rs| == |records| && k <= k' <= |rs|
    requires forall j :: 0 <= j < k' ==> !Halts(rs[j])
    ensures RowsUpTo(headers, records, rs, k) <= RowsUpTo(headers, records, rs, k')
    decreases k' - k
  {
    if k < k' {
      RowsPrefix(headers, records, rs, k, k' - 1);
    }
  }

  /** How a run ends and how far it gets: it runs to the end exactly when no
      reply is `OVER_QUERY_LIMIT` or `OK` without a result; it halts at the
      first `OVER_QUERY_LIMIT` before which nothing ended it, and then sends
      no later request and writes no row for that record or any later one;
      it crashes at an `OK` reply without a result in the same way. */
  lemma EndOfSpec(headers: seq<string>, records: seq<Entry>, rs: seq<Response>)
    requires |rs| == |records|
    requires forall i :: 0 <= i < |records| ==> HasRequest(records[i])
    ensures var run := BatchOf(headers, records, rs);
      && (run.end == Completed <==> forall j :: 0 <= j < |rs| ==> !Halts(rs[j]))
      && (run.end.Halted? ==>
            && run.end.index < |rs|
            && rs[run.end.index].status == Some(OverQueryLimit)
            && |run.requests| == run.end.index + 1)
      && (run.end.Crashed? ==>
            && run.end.index < |rs|
            && rs[run.end.index].status == Some(Ok) && rs[run.end.index].location.None?
            && |run.requests| == run.end.index + 1)
      && (!run.end.Completed? ==> forall j :: 0 <= j < run.end.index ==> !Halts(rs[j]))
      && (run.end.Completed? ==> |run.requests| == |records|)
      && (forall i :: 0 <= i < |run.requests| ==> run.requests[i] == records[i].fields[RequestKey])
  {
    var n := HaltAt(rs);
    if n < |rs| {
      ClassifySpec(rs[n].status);
    }
  }

  /** A projected coordinate whose printed parts hold no `;`. */
  predicate PlainUtm(u: Utm) {
    Delimiter !in u.east && Delimiter !in u.north && Delimiter !in u.zone
  }

  /** When no record value and no printed coordinate holds a `;`, splitting
      the m-th row on `;` gives back the values of the m-th `OK` record in
      header order followed by the three coordinate fields: every row has
      three fields more than there are columns. */
  lemma RowsFieldsBack(headers: seq<string>, records: seq<Entry>, rs: seq<Response>, k: nat)
    requires |rs| == |records| && k <= |rs|
    requires forall j :: 0 <= j < k ==> !Halts(rs[j])
    requires forall i, h :: 0 <= i < |records| && 0 <= h < |headers| ==> Delimiter !in Lookup(records[i].fields, headers[h])
    requires forall j :: 0 <= j < |rs| && rs[j].location.Some? ==> PlainUtm(rs[j].location.value)
    ensures |RowsUpTo(headers, records, rs, k)| == |OkIndices(rs, k)|
    ensures forall m :: 0 <= m < |OkIndices(rs, k)| ==>
              var j, u := OkIndices(rs, k)[m], rs[OkIndices(rs, k)[m]].location;
              && u.Some?
              && Split(RowsUpTo(headers, records, rs, k)[m], Delimiter) ==
                   Values(headers, records[j].fields) + [u.value.east, u.value.north, Quote(u.value.zone)]
              && |Split(RowsUpTo(headers, records, rs, k)[m], Delimiter)| == |headers| + 3
  {
    RowsSubsequence(headers, records, rs, k);
    forall m | 0 <= m < |OkIndices(rs, k)|
      ensures var j, u := OkIndices(rs, k)[m], rs[OkIndices(rs, k)[m]].location;
              && u.Some?
              && Split(RowsUpTo(headers, records, rs, k)[m], Delimiter) ==
                   Values(headers, records[j].fields) + [u.value.east, u.value.north, Quote(u.value.zone)]
              && |Split(RowsUpTo(headers, records, rs, k)[m], Delimiter)| == |headers| + 3
    {
      var j := OkIndices(rs, k)[m];
      RowFieldsBack(headers, records[j].fields, rs[j].location.value);
    }
  }

  /** Every data line has at least as many fields as the header. */
  predicate AllFit(headers: seq<string>, lines: seq<string>) {
    forall n :: 1 <= n < |lines| ==> RowFits(headers, lines[n])
  }

  /** The records after the request pass. */
  function WithRequests(apiKey: string, records: seq<Entry>): (r: seq<Entry>)
    requires forall i :: 0 <= i < |records| ==> HasColumns(records[i])
    ensures |r| == |records|
    ensures forall i :: 0 <= i < |r| ==> HasRequest(r[i])
  {
    seq(|records|, i requires 0 <= i < |records| => WithRequest(apiKey, records[i]))
  }

  /** No value written back to the output holds a `;`: parsed values cannot,
      and the request cannot unless the API key does, which matters only when
      a column is named `request`. */
  lemma WithRequestsPlain(apiKey: string, headers: seq<string>, lines: seq<string>)
    requires 1 <= |lines| && AllFit(headers, lines)
    requires forall i :: 0 <= i < |lines| - 1 ==> HasColumns(Records(headers, lines, |lines|)[i])
    requires Delimiter !in apiKey || RequestKey !in headers
    ensures var records := WithRequests(apiKey, Records(headers, lines, |lines|));
      forall i, h :: 0 <= i < |records| && 0 <= h < |headers| ==> Delimiter !in Lookup(records[i].fields, headers[h])
  {
    var parsed := Records(headers, lines, |lines|);
    var records := WithRequests(apiKey, parsed);
    RecordsSpec(headers, lines, |lines|);
    forall i, h | 0 <= i < |records| && 0 <= h < |headers|
      ensures Delimiter !in Lookup(records[i].fields, headers[h])
    {
      RecordSpec(headers, lines[i + 1]);
      var e := parsed[i];
      if headers[h] == RequestKey {
        RequestNoDelimiter(apiKey, e.fields[AddressKey], e.fields[CountryKey]);
      }
    }
  }

  /** The output lines and the run that wrote them. */
  datatype Conversion = Conversion(output: seq<string>, run: Run)

  /** What a whole conversion produces once the input has been read and
      every request built: the upper-cased header line, then the rows. */
  function ConversionOf(apiKey: string, lines: seq<string>, responses: seq<Response>): (conversion: Conversion)
    requires 1 <= |lines| && |responses| == |lines| - 1
    requires AllFit(ParseHeaders(lines[0]), lines)
    requires forall i :: 0 <= i < |lines| - 1 ==> HasColumns(Records(ParseHeaders(lines[0]), lines, |lines|)[i])
  {
    var headers := ParseHeaders(lines[0]);
    var run := BatchOf(headers, WithRequests(apiKey, Records(headers, lines, |lines|)), responses);
    Conversion([OutputHeader(headers)] + run.rows, run)
  }

  /** The whole script (address_to_location.rb:58-140) from the lines of the
      input file and the replies of the service to the lines of the output
      file. It fails, writing nothing, on an empty input, on a row with too
      few fields or on a record without an address or country; otherwise the
      output is the header line followed by the rows of the run. */
  method Convert(apiKey: string, lines: seq<string>, responses: seq<Response>) returns (r: Result<Conversion, InputError>)
    requires lines == [] || |responses| == |lines| - 1
    ensures lines == [] ==> r == Failure(EmptyInput)
    ensures lines != [] && !AllFit(ParseHeaders(lines[0]), lines) ==>
              && r.Failure? && r.error.MalformedRow?
              && 2 <= r.error.line <= |lines|
              && !RowFits(ParseHeaders(lines[0]), lines[r.error.line - 1])
              && forall n :: 1 <= n < r.error.line - 1 ==> RowFits(ParseHeaders(lines[0]), lines[n])
    ensures lines != [] && AllFit(ParseHeaders(lines[0]), lines) ==>
              var records := Records(ParseHeaders(lines[0]), lines, |lines|);
              && (r.Success? <==> forall i :: 0 <= i < |records| ==> HasColumns(records[i]))
              && (r.Failure? ==>
                    && r.error.MissingColumn?
                    && exists i :: 0 <= i < |records|
                         && MissingIn(records[i]) == Some(r.error.column)
                         && r.error.key == records[i].key
                         && forall j :: 0 <= j < i ==> HasColumns(records[j]))
              && (r.Success? ==> r.value == ConversionOf(apiKey, lines, responses))
  {
    var input := ReadInput(lines);
    if input.Failure? {
      return Failure(input.error);
    }
    var table := input.value;
    var withRequests := AttachRequests(apiKey, table.records);
    if withRequests.Failure? {
      return Failure(withRequests.error);
    }
    assert withRequests.value == WithRequests(apiKey, table.records);
    var header := OutputHeader(table.headers);
    var run := RunBatch(table.headers, withRequests.value, responses);
    r := Success(Conversion([header] + run.rows, run));
  }
}
