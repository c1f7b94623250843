/** The requests the repository's tests send to a listener, read with the
    model of `read_request_parameters`. */
module Scenarios {
  import opened Strings
  import opened Percent
  import opened HttpServer

  /** A request without a query gives the empty dictionary, and
      `?toto=titi` gives `{'toto': 'titi'}`. */
  lemma ListenerTestRequests()
    ensures RequestParameters("/") == map[]
    ensures RequestParameters("/?toto=titi") == map["toto" := "titi"]
  {
    SpellPath("/", "toto=titi", "/?toto=titi");
    NoQueryNoParameters("/");
    var fields := [("toto", "titi")];
    var segments := FieldSegments(fields);
    assert segments[0] == FieldSegment(fields[0]) == "toto=titi";
    assert ToQuery(fields) == "toto=titi";
    PlainRoundTrip("/", fields);
    assert fields[..0] == [];
  }

  /** The redirect the fake authorization server sends back,
      `?code=123&state=state_test`, gives the code and the state. */
  lemma RedirectCarriesCodeAndState()
    ensures RequestParameters("/?code=123&state=state_test") == map["code" := "123", "state" := "state_test"]
  {
    SpellPath("/", "code=123&state=state_test", "/?code=123&state=state_test");
    var fields := [("code", "123"), ("state", "state_test")];
    RedirectQuery(fields);
    PlainRoundTrip("/", fields);
    assert fields[..1] == [("code", "123")] && fields[..1][..0] == [];
  }

  lemma RedirectQuery(fields: seq<(string, string)>)
    requires fields == [("code", "123"), ("state", "state_test")]
    ensures ToQuery(fields) == "code=123&state=state_test"
  {
    var segments := FieldSegments(fields);
    assert segments[0] == FieldSegment(fields[0]) == "code=123";
    assert segments[1] == FieldSegment(fields[1]) == "state=state_test";
    assert segments[1..] == ["state=state_test"];
    assert Join(segments[1..], '&') == "state=state_test";
    assert ToQuery(fields) == segments[0] + ['&'] + segments[1];
  }

  /** The authorization request with its values percent-encoded: the
      authorization server reads back the redirect URI, the state, the client
      identifier and the space-separated scopes exactly. */
  lemma AuthorizeRequestReadsBack()
    ensures var params := RequestParameters("/oauth/authorize" + "?" + ToQuery(Encoded(AuthorizeFields())));
            && "redirect_uri" in params && params["redirect_uri"] == "http://localhost:8090"
            && "state" in params && params["state"] == "state_test"
            && "client_id" in params && params["client_id"] == "client_id_test"
            && "scope" in params && params["scope"] == "scope1 scope2"
  {
    var fields := AuthorizeFields();
    EncodedRoundTrip("/oauth/authorize", fields);
    AuthorizeMap(fields);
  }

  lemma AuthorizeMap(fields: seq<(string, string)>)
    requires fields == AuthorizeFields()
    ensures "redirect_uri" in ToMap(fields) && ToMap(fields)["redirect_uri"] == "http://localhost:8090"
    ensures "state" in ToMap(fields) && ToMap(fields)["state"] == "state_test"
    ensures "client_id" in ToMap(fields) && ToMap(fields)["client_id"] == "client_id_test"
    ensures "scope" in ToMap(fields) && ToMap(fields)["scope"] == "scope1 scope2"
  {
    ToMapValues(fields);
    assert fields[0] == ("redirect_uri", "http://localhost:8090");
    assert fields[1] == ("state", "state_test");
    assert fields[2] == ("client_id", "client_id_test");
    assert fields[3] == ("scope", "scope1 scope2");
  }

  /** The four fields whose values the fake authorization server checks,
      in the order it checks them; their names are distinct
      (`HasDistinctNames`), so the order does not change the result. */
  function AuthorizeFields(): (fields: seq<(string, string)>)
    ensures forall i :: 0 <= i < |fields| ==> IsOctets(fields[i].1)
    ensures forall i :: 0 <= i < |fields| ==> '&' !in fields[i].0 && '=' !in fields[i].0
    ensures HasDistinctNames(fields)
  {
    [("redirect_uri", "http://localhost:8090"), ("state", "state_test"),
     ("client_id", "client_id_test"), ("scope", "scope1 scope2")]
  }

  /** `path` is `prefix`, a `?` and `query`, spelled out. */
  lemma SpellPath(prefix: string, query: string, path: string)
    requires |path| == |prefix| + 1 + |query|
    requires forall i :: 0 <= i < |prefix| ==> path[i] == prefix[i]
    requires path[|prefix|] == '?'
    requires forall i :: 0 <= i < |query| ==> path[|prefix| + 1 + i] == query[i]
    ensures prefix + "?" + query == path
  {
  }

  /** `+` stays a `+`; only `%20` is a space: `a+b%20c` decodes to `a+b c`. */
  lemma PlusIsNotSpace()
    ensures Unquote("a+b%20c") == "a+b c"
  {
    UnquoteLiteralPrefix("a+b", "%20c");
    assert "a+b" + "%20c" == "a+b%20c";
    var u := "%20c";
    assert StartsWithEscape(u) && u[3..] == "c";
    assert DecodeOctet('2', '0') == ' ';
    assert "a+b" + [' '] + "c" == "a+b c";
  }
}
