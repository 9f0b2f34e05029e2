/** The request pipeline of `IntercomClient`. Each verb builds the request it
    would hand to the HTTP transport: a method string, a target URI and the
    Guzzle request options, which are the verb's defaults merged with the
    client's extra options by `array_replace_recursive`. The verbs here
    return that request instead of sending it. */
module Intercom {
  import opened PhpValue
  import opened ArrayReplace

  const BaseUrl: string := "https://api.intercom.io/"

  const JsonKey: Key := StrKey("json")
  const QueryKey: Key := StrKey("query")
  const AuthKey: Key := StrKey("auth")
  const HeadersKey: Key := StrKey("headers")
  const AcceptKey: Key := StrKey("Accept")
  const AcceptJson: Value := Str("application/json")

  /** The HTTP transport in the client's slot: the default Guzzle client
      made by the constructor, or one set by the caller. */
  datatype Transport = DefaultClient | CustomClient(id: nat)

  /** The arguments of `$http_client->request($verb, $uri, $options)`. */
  datatype Request = Request(verb: string, uri: Value, options: seq<Entry>)

  /** `[$user, $pass]`: the credential pair as a PHP list. */
  function AuthPair(user: string, pass: string): Value
  {
    Arr([Entry(IntKey(0), Str(user)), Entry(IntKey(1), Str(pass))])
  }

  /** `['Accept' => 'application/json']` */
  function AcceptHeaders(): Value
  {
    Arr([Entry(AcceptKey, AcceptJson)])
  }

  /** Defaults of `post`, `put` and `delete`: the payload as the JSON body,
      never as the query, with the credentials and `Accept: application/json`. */
  function BodyDefaults(json: Value, auth: Value): (d: seq<Entry>)
    ensures Find(d, JsonKey) == Some(json)
    ensures Find(d, QueryKey) == None
    ensures Find(d, AuthKey) == Some(auth)
    ensures Find(d, HeadersKey) == Some(AcceptHeaders())
  {
    [Entry(JsonKey, json), Entry(AuthKey, auth), Entry(HeadersKey, AcceptHeaders())]
  }

  /** Defaults of `get`: the payload as the query string, never as a JSON
      body, with the credentials and `Accept: application/json`. */
  function QueryDefaults(query: Value, auth: Value): (d: seq<Entry>)
    ensures Find(d, QueryKey) == Some(query)
    ensures Find(d, JsonKey) == None
    ensures Find(d, AuthKey) == Some(auth)
    ensures Find(d, HeadersKey) == Some(AcceptHeaders())
  {
    [Entry(QueryKey, query), Entry(AuthKey, auth), Entry(HeadersKey, AcceptHeaders())]
  }

  /** Defaults of `nextPage`: no payload, only the credentials and
      `Accept: application/json`. */
  function PageDefaults(auth: Value): (d: seq<Entry>)
    ensures Find(d, JsonKey) == None
    ensures Find(d, QueryKey) == None
    ensures Find(d, AuthKey) == Some(auth)
    ensures Find(d, HeadersKey) == Some(AcceptHeaders())
  {
    [Entry(AuthKey, auth), Entry(HeadersKey, AcceptHeaders())]
  }

  /** The value of header `name` in request options, if the options carry a
      header array holding it. */
  function Header(options: seq<Entry>, name: Key): Option<Value>
  {
    match Find(options, HeadersKey)
    case Some(Arr(hs)) => Find(hs, name)
    case _ => None
  }

  /** The `Accept` header a request ends up with, given the extra options:
      `application/json` unless the extras set their own `Accept` header, or
      replace the whole header array by something that is not an array. */
  function AcceptAfter(extra: seq<Entry>): Option<Value>
  {
    match Find(extra, HeadersKey)
    case None => Some(AcceptJson)
    case Some(h) =>
      if !h.Arr? then None
      else if AcceptKey in KeySet(h.entries) then Find(h.entries, AcceptKey)
      else Some(AcceptJson)
  }

  /** The `Accept` header after merging defaults that set it with the extra
      options is the one `AcceptAfter` describes. */
  lemma AcceptAfterMerge(defaults: seq<Entry>, extra: seq<Entry>)
    requires WellFormed(Arr(extra))
    requires Find(defaults, HeadersKey) == Some(AcceptHeaders())
    ensures Header(ArrayReplaceRecursive(defaults, extra), AcceptKey) == AcceptAfter(extra)
  {
    var merged := ArrayReplaceRecursive(defaults, extra);
    FindReplacedAt(defaults, extra, HeadersKey);
    match Find(extra, HeadersKey)
    case None =>
      assert Find(merged, HeadersKey) == Some(AcceptHeaders());
    case Some(h) =>
      assert Find(merged, HeadersKey) == Some(MergeValue(Some(AcceptHeaders()), h));
      if h.Arr? {
        FoundWellFormed(extra, HeadersKey);
        AcceptHeaderMerge(h.entries);
      }
  }

  /** Merging a header array into `['Accept' => 'application/json']`. */
  lemma AcceptHeaderMerge(hs: seq<Entry>)
    requires DistinctKeys(hs)
    ensures Find(ArrayReplaceRecursive(AcceptHeaders().entries, hs), AcceptKey)
         == if AcceptKey in KeySet(hs) then Find(hs, AcceptKey) else Some(AcceptJson)
  {
    FindReplacedAt(AcceptHeaders().entries, hs, AcceptKey);
  }

  /** What the request options hold under the keys the verbs set, once
      defaults carrying the `Accept` header are merged with the extras. */
  lemma MergedOptions(defaults: seq<Entry>, extra: seq<Entry>)
    requires WellFormed(Arr(extra))
    requires Find(defaults, HeadersKey) == Some(AcceptHeaders())
    ensures Find(ArrayReplaceRecursive(defaults, extra), JsonKey) == Replaced(Find(defaults, JsonKey), Find(extra, JsonKey))
    ensures Find(ArrayReplaceRecursive(defaults, extra), QueryKey) == Replaced(Find(defaults, QueryKey), Find(extra, QueryKey))
    ensures Find(ArrayReplaceRecursive(defaults, extra), AuthKey) == Replaced(Find(defaults, AuthKey), Find(extra, AuthKey))
    ensures Header(ArrayReplaceRecursive(defaults, extra), AcceptKey) == AcceptAfter(extra)
  {
    FindReplacedAt(defaults, extra, JsonKey);
    FindReplacedAt(defaults, extra, QueryKey);
    FindReplacedAt(defaults, extra, AuthKey);
    AcceptAfterMerge(defaults, extra);
  }

  /** An extra header joins the default `Accept` header instead of
      replacing the header array. */
  lemma ExtraHeaderJoinsAccept(name: string, value: string)
    requires StrKey(name) != AcceptKey
    ensures ArrayReplaceRecursive(
              [Entry(HeadersKey, AcceptHeaders())],
              [Entry(HeadersKey, Arr([Entry(StrKey(name), Str(value))]))])
         == [Entry(HeadersKey, Arr([Entry(AcceptKey, AcceptJson), Entry(StrKey(name), Str(value))]))]
  {
    var extra := [Entry(StrKey(name), Str(value))];
    SameSingleKey(HeadersKey, AcceptHeaders(), Arr(extra));
    assert MergeValue(Some(AcceptHeaders()), Arr(extra)) == Arr(ArrayReplaceRecursive(AcceptHeaders().entries, extra));
    assert KeySet(AcceptHeaders().entries) == {AcceptKey};
    assert KeySet(extra) == {StrKey(name)};
    assert DistinctKeys(extra);
    DisjointAppends(AcceptHeaders().entries, extra);
    assert AcceptHeaders().entries + extra == [Entry(AcceptKey, AcceptJson), Entry(StrKey(name), Str(value))];
  }

  /** An extra `Accept` header replaces the default one. */
  lemma ExtraAcceptReplaces(value: Value)
    ensures ArrayReplaceRecursive(
              [Entry(HeadersKey, AcceptHeaders())],
              [Entry(HeadersKey, Arr([Entry(AcceptKey, value)]))])
         == [Entry(HeadersKey, Arr([Entry(AcceptKey, value)]))]
  {
    SameSingleKey(HeadersKey, AcceptHeaders(), Arr([Entry(AcceptKey, value)]));
    SameSingleKey(AcceptKey, AcceptJson, value);
  }

  /** Storing a new username into a credential pair. */
  lemma PutUser(user: string, pass: string, user2: string)
    ensures Put(AuthPair(user, pass).entries, IntKey(0), Str(user2)) == AuthPair(user2, pass).entries
  {
  }

  /** Storing a new password into a credential pair. */
  lemma PutPass(user: string, pass: string, pass2: string)
    ensures Put(AuthPair(user, pass).entries, IntKey(1), Str(pass2)) == AuthPair(user, pass2).entries
  {
    var es := AuthPair(user, pass).entries;
    assert Put(es, IntKey(1), Str(pass2)) == [es[0]] + Put(es[1..], IntKey(1), Str(pass2));
  }

  /** An extra credential pair replaces the default one. */
  lemma ExtraAuthReplaces(user: string, pass: string, user2: string, pass2: string)
    ensures ArrayReplaceRecursive([Entry(AuthKey, AuthPair(user, pass))], [Entry(AuthKey, AuthPair(user2, pass2))])
         == [Entry(AuthKey, AuthPair(user2, pass2))]
  {
    var b := AuthPair(user, pass);
    var x := AuthPair(user2, pass2);
    SameSingleKey(AuthKey, b, x);
    PutUser(user, pass, user2);
    PutPass(user2, pass, pass2);
    var b0 := AuthPair(user2, pass).entries;
    var b1 := x.entries;
    assert MergeValue(Find(b.entries, IntKey(0)), Str(user2)) == Str(user2);
    assert ReplaceFrom(b.entries, x, 0) == ReplaceFrom(b0, x, 1);
    assert MergeValue(Find(b0, IntKey(1)), Str(pass2)) == Str(pass2);
    assert ReplaceFrom(b0, x, 1) == ReplaceFrom(b1, x, 2);
  }

  /** The credential pair is a list, merged index by index: a one-element
      extra `auth` list replaces the username only. */
  lemma ExtraAuthMergesByIndex(user: string, pass: string, user2: string)
    ensures ArrayReplaceRecursive([Entry(AuthKey, AuthPair(user, pass))], [Entry(AuthKey, Arr([Entry(IntKey(0), Str(user2))]))])
         == [Entry(AuthKey, AuthPair(user2, pass))]
  {
    var b := AuthPair(user, pass);
    var x := Arr([Entry(IntKey(0), Str(user2))]);
    SameSingleKey(AuthKey, b, x);
    PutUser(user, pass, user2);
    assert MergeValue(Find(b.entries, IntKey(0)), Str(user2)) == Str(user2);
    assert ReplaceFrom(b.entries, x, 0) == ReplaceFrom(AuthPair(user2, pass).entries, x, 1);
  }

  class IntercomClient {
    var httpClient: Transport
    var usernamePart: string
    var passwordPart: string
    var extraGuzzleRequestsOptions: seq<Entry>

    /** The extra options form a PHP array. */
    ghost predicate Valid()
      reads this
    {
      WellFormed(Arr(extraGuzzleRequestsOptions))
    }

    constructor(usernamePart: string, passwordPart: string, extraGuzzleRequestsOptions: seq<Entry> := [])
      requires WellFormed(Arr(extraGuzzleRequestsOptions))
      ensures Valid()
      ensures httpClient == DefaultClient
      ensures this.usernamePart == usernamePart && this.passwordPart == passwordPart
      ensures this.extraGuzzleRequestsOptions == extraGuzzleRequestsOptions
    {
      httpClient := DefaultClient;
      this.usernamePart := usernamePart;
      this.passwordPart := passwordPart;
      this.extraGuzzleRequestsOptions := extraGuzzleRequestsOptions;
    }

    /** Replaces the transport; the credentials and extra options stay. */
    method SetClient(client: Transport)
      requires Valid()
      modifies this`httpClient
      ensures Valid() && httpClient == client
      ensures usernamePart == old(usernamePart) && passwordPart == old(passwordPart)
      ensures extraGuzzleRequestsOptions == old(extraGuzzleRequestsOptions)
    {
      httpClient := client;
    }

    /** The credential pair, username first. */
    function GetAuth(): (auth: Value)
      reads this
      ensures auth.Arr? && KeysOf(auth.entries) == [IntKey(0), IntKey(1)]
      ensures Find(auth.entries, IntKey(0)) == Some(Str(usernamePart))
      ensures Find(auth.entries, IntKey(1)) == Some(Str(passwordPart))
      ensures WellFormed(auth)
    {
      AuthPair(usernamePart, passwordPart)
    }

    /** The defaults merged with the extra options: every key of either is in
        the result, holding what `Replaced` gives for it; no extras leave the
        defaults as they are, no defaults give the extras, and merging the
        extras in once more changes nothing. */
    function GetGuzzleRequestsOptions(defaults: seq<Entry> := []): (options: seq<Entry>)
      reads this
      requires Valid()
      ensures KeySet(options) == KeySet(defaults) + KeySet(extraGuzzleRequestsOptions)
      ensures forall k :: Find(options, k) == Replaced(Find(defaults, k), Find(extraGuzzleRequestsOptions, k))
      ensures extraGuzzleRequestsOptions == [] ==> options == defaults
      ensures defaults == [] ==> options == extraGuzzleRequestsOptions
      ensures ArrayReplaceRecursive(options, extraGuzzleRequestsOptions) == options
    {
      var extra := extraGuzzleRequestsOptions;
      FindReplaced(defaults, extra);
      DisjointAppends([], extra);
      Idempotent(defaults, extra);
      ArrayReplaceRecursive(defaults, extra)
    }

    method Post(endpoint: string, json: Value) returns (r: Request)
      requires Valid()
      ensures r.verb == "POST" && r.uri == Str(BaseUrl + endpoint)
      ensures r.options == GetGuzzleRequestsOptions(BodyDefaults(json, GetAuth()))
      ensures Find(r.options, JsonKey) == Replaced(Some(json), Find(extraGuzzleRequestsOptions, JsonKey))
      ensures Find(r.options, QueryKey) == Find(extraGuzzleRequestsOptions, QueryKey)
      ensures Find(r.options, AuthKey) == Replaced(Some(GetAuth()), Find(extraGuzzleRequestsOptions, AuthKey))
      ensures Header(r.options, AcceptKey) == AcceptAfter(extraGuzzleRequestsOptions)
    {
      var auth := GetAuth();
      var defaults := BodyDefaults(json, auth);
      MergedOptions(defaults, extraGuzzleRequestsOptions);
      var options := GetGuzzleRequestsOptions(defaults);
      r := Request("POST", Str(BaseUrl + endpoint), options);
    }

    method Put(endpoint: string, json: Value) returns (r: Request)
      requires Valid()
      ensures r.verb == "PUT" && r.uri == Str(BaseUrl + endpoint)
      ensures r.options == GetGuzzleRequestsOptions(BodyDefaults(json, GetAuth()))
      ensures Find(r.options, JsonKey) == Replaced(Some(json), Find(extraGuzzleRequestsOptions, JsonKey))
      ensures Find(r.options, QueryKey) == Find(extraGuzzleRequestsOptions, QueryKey)
      ensures Find(r.options, AuthKey) == Replaced(Some(GetAuth()), Find(extraGuzzleRequestsOptions, AuthKey))
      ensures Header(r.options, AcceptKey) == AcceptAfter(extraGuzzleRequestsOptions)
    {
      var auth := GetAuth();
      var defaults := BodyDefaults(json, auth);
      MergedOptions(defaults, extraGuzzleRequestsOptions);
      var options := GetGuzzleRequestsOptions(defaults);
      r := Request("PUT", Str(BaseUrl + endpoint), options);
    }

    method Delete(endpoint: string, json: Value) returns (r: Request)
      requires Valid()
      ensures r.verb == "DELETE" && r.uri == Str(BaseUrl + endpoint)
      ensures r.options == GetGuzzleRequestsOptions(BodyDefaults(json, GetAuth()))
      ensures Find(r.options, JsonKey) == Replaced(Some(json), Find(extraGuzzleRequestsOptions, JsonKey))
      ensures Find(r.options, QueryKey) == Find(extraGuzzleRequestsOptions, QueryKey)
      ensures Find(r.options, AuthKey) == Replaced(Some(GetAuth()), Find(extraGuzzleRequestsOptions, AuthKey))
      ensures Header(r.options, AcceptKey) == AcceptAfter(extraGuzzleRequestsOptions)
    {
      var auth := GetAuth();
      var defaults := BodyDefaults(json, auth);
      MergedOptions(defaults, extraGuzzleRequestsOptions);
      var options := GetGuzzleRequestsOptions(defaults);
      r := Request("DELETE", Str(BaseUrl + endpoint), options);
    }

    method Get(endpoint: string, query: Value) returns (r: Request)
      requires Valid()
      ensures r.verb == "GET" && r.uri == Str(BaseUrl + endpoint)
      ensures r.options == GetGuzzleRequestsOptions(QueryDefaults(query, GetAuth()))
      ensures Find(r.options, QueryKey) == Replaced(Some(query), Find(extraGuzzleRequestsOptions, QueryKey))
      ensures Find(r.options, JsonKey) == Find(extraGuzzleRequestsOptions, JsonKey)
      ensures Find(r.options, AuthKey) == Replaced(Some(GetAuth()), Find(extraGuzzleRequestsOptions, AuthKey))
      ensures Header(r.options, AcceptKey) == AcceptAfter(extraGuzzleRequestsOptions)
    {
      var auth := GetAuth();
      var defaults := QueryDefaults(query, auth);
      MergedOptions(defaults, extraGuzzleRequestsOptions);
      var options := GetGuzzleRequestsOptions(defaults);
      r := Request("GET", Str(BaseUrl + endpoint), options);
    }

    /** A GET to the `next` URL of a page cursor, taken as it is. */
    method NextPage(pages: Value) returns (r: Request)
      requires Valid()
      ensures r.verb == "GET" && r.uri == Property(pages, "next")
      ensures r.options == GetGuzzleRequestsOptions(PageDefaults(GetAuth()))
      ensures Find(r.options, JsonKey) == Find(extraGuzzleRequestsOptions, JsonKey)
      ensures Find(r.options, QueryKey) == Find(extraGuzzleRequestsOptions, QueryKey)
      ensures Find(r.options, AuthKey) == Replaced(Some(GetAuth()), Find(extraGuzzleRequestsOptions, AuthKey))
      ensures Header(r.options, AcceptKey) == AcceptAfter(extraGuzzleRequestsOptions)
    {
      var defaults := PageDefaults(GetAuth());
      MergedOptions(defaults, extraGuzzleRequestsOptions);
      var options := GetGuzzleRequestsOptions(defaults);
      r := Request("GET", Property(pages, "next"), options);
    }
  }

  /** The five requests the client builds for one endpoint, payload and page
      cursor: each is the verb's target with its defaults merged into the
      stored extra options. */
  method BuildRequests(c: IntercomClient, endpoint: string, payload: Value, pages: Value)
    returns (rs: seq<Request>)
    requires c.Valid()
    ensures rs == Expected(c.usernamePart, c.passwordPart, c.extraGuzzleRequestsOptions, endpoint, payload, pages)
  {
    var p := c.Post(endpoint, payload);
    var u := c.Put(endpoint, payload);
    var d := c.Delete(endpoint, payload);
    var g := c.Get(endpoint, payload);
    var n := c.NextPage(pages);
    rs := [p, u, d, g, n];
  }

  /** What `post`, `put`, `delete`, `get` and `nextPage` send, in that order,
      for the given credentials and extra options. */
  function Expected(user: string, pass: string, extra: seq<Entry>, endpoint: string, payload: Value, pages: Value): seq<Request>
  {
    var auth := AuthPair(user, pass);
    var body := ArrayReplaceRecursive(BodyDefaults(payload, auth), extra);
    [ Request("POST", Str(BaseUrl + endpoint), body),
      Request("PUT", Str(BaseUrl + endpoint), body),
      Request("DELETE", Str(BaseUrl + endpoint), body),
      Request("GET", Str(BaseUrl + endpoint), ArrayReplaceRecursive(QueryDefaults(payload, auth), extra)),
      Request("GET", Property(pages, "next"), ArrayReplaceRecursive(PageDefaults(auth), extra)) ]
  }

  /** Swapping the transport leaves every request the client builds as it
      was. */
  method SetClientKeepsRequests(c: IntercomClient, client: Transport, endpoint: string, payload: Value, pages: Value)
    returns (before: seq<Request>, after: seq<Request>)
    requires c.Valid()
    modifies c`httpClient
    ensures c.httpClient == client
    ensures before == Expected(old(c.usernamePart), old(c.passwordPart), old(c.extraGuzzleRequestsOptions), endpoint, payload, pages)
    ensures after == before
  {
    before := BuildRequests(c, endpoint, payload, pages);
    c.SetClient(client);
    after := BuildRequests(c, endpoint, payload, pages);
  }
}
