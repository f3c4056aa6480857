/** The request pass of address_to_location.rb (lines 76-83): every record
    gets, under the column name `request`, the Geocoding API URL built from
    its address and country with the double quotes removed and the values
    form-escaped. */
module GeocodeRequest {
  import opened Wrappers
  import opened RubyStrings
  import opened CgiEscape
  import opened RecordStore

  /** `base_url`, https://maps.googleapis.com/maps/api/geocode/json, written
      in two parts so that facts about its characters stay cheap to prove. */
  const Host: string := "maps.googleapis.com"
  const Path: string := "/maps/api/geocode/json"
  const BaseUrl: string := "https://" + Host + Path
  const AddressKey: string := "address"
  const CountryKey: string := "country"
  const RequestKey: string := "request"

  /** The names of the three query parameters, with their `=` and, for the
      country, the `country:` component filter. */
  const AddressParam: string := "address="
  const CountryParam: string := "components=country:"
  const KeyParam: string := "key="

  /** The fixed parts of a request hold neither `?`, `&` nor `;`. */
  lemma BaseUrlPlain()
    ensures '?' !in BaseUrl && ';' !in BaseUrl
  {
    assert '?' !in Host && ';' !in Host;
    assert '?' !in Path && ';' !in Path;
  }

  lemma ParamsPlain()
    ensures '&' !in AddressParam && ';' !in AddressParam
    ensures '&' !in CountryParam && ';' !in CountryParam
    ensures ';' !in KeyParam
  {
  }

  /** A value as it goes into `CGI.escape`: `gsub(/"/, '')` removes every
      double quote. */
  function Unquote(s: string): (r: string)
    ensures '"' !in r
    ensures |r| <= |s|
  {
    RemoveAllSpec(s, '"');
    RemoveAll(s, '"')
  }

  /** The query string `parameters` (address_to_location.rb:78-80). */
  function Query(apiKey: string, address: string, country: string): (query: string)
  {
    (AddressParam + Escape(Unquote(address))) +
      ("&" + ((CountryParam + Escape(Unquote(country))) + ("&" + (KeyParam + apiKey))))
  }

  /** The request URL (address_to_location.rb:81). */
  function RequestFor(apiKey: string, address: string, country: string): (request: string)
  {
    BaseUrl + ("?" + Query(apiKey, address, country))
  }

  /** Double quotes in the raw values make no difference to the request:
      they are all gone before escaping, and removing them again changes
      nothing. */
  lemma QuotesIgnored(apiKey: string, address: string, country: string)
    ensures RequestFor(apiKey, Unquote(address), Unquote(country)) == RequestFor(apiKey, address, country)
  {
    RemoveAllSpec(Unquote(address), '"');
    RemoveAllSpec(Unquote(country), '"');
  }

  /** Splitting the query on `&` gives the address parameter, the country
      parameter and then the fields of `key=` followed by the API key. */
  lemma QueryFields(apiKey: string, address: string, country: string)
    ensures Fields(Query(apiKey, address, country), '&') ==
              [AddressParam + Escape(Unquote(address)), CountryParam + Escape(Unquote(country))] +
              Fields(KeyParam + apiKey, '&')
  {
    ParamsPlain();
    var c := CountryParam + Escape(Unquote(country));
    FieldsCons(AddressParam + Escape(Unquote(address)), c + ("&" + (KeyParam + apiKey)), '&');
    FieldsCons(c, KeyParam + apiKey, '&');
  }

  /** The request decodes back to what went in: the URL is the base URL and
      a query; when the API key holds no `&`, the query has exactly three
      parameters, and unescaping the address and country parameters gives the
      UTF-8 bytes of the quote-free address and country. */
  lemma RequestDecodes(apiKey: string, address: string, country: string)
    requires '&' !in apiKey
    ensures Fields(RequestFor(apiKey, address, country), '?')[0] == BaseUrl
    ensures var q := Fields(Query(apiKey, address, country), '&');
      && |q| == 3
      && |q[0]| >= |AddressParam| && q[0][..|AddressParam|] == AddressParam
      && Unescape(q[0][|AddressParam|..]) == Some(Utf8(Unquote(address)))
      && |q[1]| >= |CountryParam| && q[1][..|CountryParam|] == CountryParam
      && Unescape(q[1][|CountryParam|..]) == Some(Utf8(Unquote(country)))
      && q[2] == KeyParam + apiKey
  {
    var query := Query(apiKey, address, country);
    BaseUrlPlain();
    FieldsCons(BaseUrl, query, '?');
    QueryFields(apiKey, address, country);
    FieldsSingle(KeyParam + apiKey, '&');
    var ea := Escape(Unquote(address));
    var ec := Escape(Unquote(country));
    assert (AddressParam + ea)[|AddressParam|..] == ea;
    assert (CountryParam + ec)[|CountryParam|..] == ec;
    UnescapeEscape(Unquote(address));
    UnescapeEscape(Unquote(country));
  }

  /** The request holds no `;` unless the API key does, so a `request`
      column written back to the output keeps the row's field count. */
  lemma RequestNoDelimiter(apiKey: string, address: string, country: string)
    requires Delimiter !in apiKey
    ensures Delimiter !in RequestFor(apiKey, address, country)
  {
    BaseUrlPlain();
    ParamsPlain();
  }

  /** An entry from which a request can be built. */
  predicate HasColumns(e: Entry) {
    AddressKey in e.fields && CountryKey in e.fields
  }

  /** The column found missing first in an entry, if any: the
      address is read before the country (address_to_location.rb:78-79). */
  function MissingIn(e: Entry): (r: Option<string>)
    ensures r.None? <==> HasColumns(e)
    ensures r.Some? ==> r.value !in e.fields && (r.value == AddressKey || r.value == CountryKey)
  {
    if AddressKey !in e.fields then Some(AddressKey)
    else if CountryKey !in e.fields then Some(CountryKey)
    else None
  }

  /** An entry with its request attached. */
  function WithRequest(apiKey: string, e: Entry): (entry: Entry)
    requires HasColumns(e)
  {
    Entry(e.key, e.fields[RequestKey := RequestFor(apiKey, e.fields[AddressKey], e.fields[CountryKey])])
  }

  /** Adds the request to every record (address_to_location.rb:77-83). The
      first record without an address or country column stops the script
      with `nil.gsub`; otherwise every record keeps its key and its columns
      and gains the request built from its own address and country. */
  method AttachRequests(apiKey: string, records: seq<Entry>) returns (r: Result<seq<Entry>, InputError>)
    ensures r.Success? <==> forall i :: 0 <= i < |records| ==> HasColumns(records[i])
    ensures r.Success? ==>
              && |r.value| == |records|
              && forall i :: 0 <= i < |records| ==> r.value[i] == WithRequest(apiKey, records[i])
    ensures r.Failure? ==>
              && r.error.MissingColumn?
              && exists i :: 0 <= i < |records|
                   && MissingIn(records[i]) == Some(r.error.column)
                   && r.error.key == records[i].key
                   && forall j :: 0 <= j < i ==> HasColumns(records[j])
  {
    var withRequests: seq<Entry> := [];
    var i := 0;
    while i < |records|
      invariant i <= |records|
      invariant |withRequests| == i
      invariant forall j :: 0 <= j < i ==> HasColumns(records[j])
      invariant forall j :: 0 <= j < i ==> withRequests[j] == WithRequest(apiKey, records[j])
    {
      // `value[ADDRESS_KEY].gsub` is evaluated before `value[COUNTRY_KEY].gsub`
      var missing := MissingIn(records[i]);
      if missing.Some? {
        return Failure(MissingColumn(records[i].key, missing.value));
      }
      var value := records[i].fields;
      var request := RequestFor(apiKey, value[AddressKey], value[CountryKey]);
      var entry := Entry(records[i].key, value[RequestKey := request]);
      assert entry == WithRequest(apiKey, records[i]);
      withRequests := withRequests + [entry];
      i := i + 1;
    }
    r := Success(withRequests);
  }
}
