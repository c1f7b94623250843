# OAuth2 client: the redirect-callback query reader

This project models, in Dafny, the part of the OAuth2 client's local callback
listener that turns the path of an incoming redirect request into parameters:
`read_request_parameters` in `oauth2_client/http_server.py`. The listener calls
it on every GET request; the authorization-code flow then looks up `code` and
`state` in the dictionary it returns.

The function takes the text after the first `?` (nothing when there is no `?`
or when the `?` is the last character), splits it on `&`, keeps each segment
that splits on `=` into exactly two parts, and stores the first part as the
key, verbatim, and the second, percent-decoded with `urllib2.unquote`, as the
value. A later segment overwrites an earlier one with the same key.

Files:

- `strings.dfy` (module `Strings`): the Python text operations it uses,
  `str.find` for one character, `str.split` on one character and its inverse
  `join`, with the facts that split and join undo each other.
- `percent.dfy` (module `Percent`): `Unquote`, the percent-decoding of section
  2.1 of RFC 3986 as `urllib2.unquote` performs it; `Quote`, an encoder it
  inverts; and the library's own split-on-`%` formulation of decoding, proved
  equal to the left-to-right scan.
- `http_server.dfy` (module `HttpServer`): the segment rule, the dictionary
  built by the loop as a recursive function `ParamsReceived`, the method
  `ReadRequestParameters` with the loop itself, and the lemmas on which
  segments count, which value wins, and the round trips.
- `scenarios.dfy` (module `Scenarios`): the requests the repository's tests
  send, read with the model.

Text is `seq<char>`; a character stands for the byte with the same code, and
`%HH` decodes to the character with code `0xHH`.

`+` is not decoded to a space: line 19 calls `urllib2.unquote`, not
`unquote_plus`, so only `%20` becomes a space (`Scenarios.PlusIsNotSpace`).
The round trip therefore holds for values written with an encoder that writes
a space as `%20` (`Percent.Quote`).

## Model

| member | source | states |
|---|---|---|
| `Strings.Find` | oauth2_client/http_server.py:14 | the result is -1 exactly when the character is absent; otherwise it is the index of its first occurrence |
| `Strings.Split` | oauth2_client/http_server.py:16-17 | one more piece than separators, no piece holds the separator, the first piece is a prefix, text without a separator is one piece |
| `Strings.JoinSplit` | oauth2_client/http_server.py:16-17 | joining the pieces of a split with the separator gives the text back |
| `Strings.SplitJoin` | oauth2_client/http_server.py:16-17 | splitting the join of separator-free pieces gives the pieces back |
| `Percent.Unquote` | oauth2_client/http_server.py:19 | decoding never lengthens text and leaves text without `%` unchanged |
| `Percent.UnquoteQuote` | oauth2_client/http_server.py:19 | decoding a percent-encoded value gives the value back exactly |
| `Percent.QuoteHasNoDelimiters` | oauth2_client/http_server.py:19 | an encoded value holds no `&`, `=`, `?` or `+`, so it survives the query syntax |
| `Percent.UnquoteAgreesWithSplit` | oauth2_client/http_server.py:19 | the left-to-right decoder equals the split-on-`%` formulation of `unquote` on every text |
| `Scenarios.PlusIsNotSpace` | oauth2_client/http_server.py:19 | `+` is kept and `%20` becomes a space: `a+b%20c` decodes to `a+b c` |
| `HttpServer.ParseSegment` | oauth2_client/http_server.py:17-18 | a segment is a parameter if and only if it has exactly one `=`; then key and raw value are the text before and after it |
| `HttpServer.QuerySegments` | oauth2_client/http_server.py:14-16 | there are no segments exactly when the path has no `?` or its first `?` is the last character; no segment holds `&` (the query text itself is characterised by `QuerySegmentsJoin`, `NoQueryNoParameters`, `EmptyQueryNoParameters` and `FirstQuestionMarkStartsQuery`) |
| `HttpServer.QuerySegmentsJoin` | oauth2_client/http_server.py:14-16 | joined back with `&`, the segments are exactly the text after the first `?` |
| `HttpServer.ParamsReceived` | oauth2_client/http_server.py:13-19 | the dictionary after the loop has seen the segments in order, each parameter segment storing its key with its decoded value over any earlier entry; characterised by `KeysComeFromSegments`, `LastSegmentWins`, `EmptyWhenNoParameterSegment` and `DroppedSegment` |
| `HttpServer.RequestParameters` | oauth2_client/http_server.py:12-20 | what `read_request_parameters(path)` returns: `ParamsReceived` of `QuerySegments(path)`; the method `ReadRequestParameters` is proved equal to it |
| `HttpServer.ReadRequestParameters` | oauth2_client/http_server.py:12-20 | the loop over the `&`-segments returns exactly the dictionary `RequestParameters(path)` |
| `HttpServer.NoQueryNoParameters` | oauth2_client/http_server.py:14-15 | a path without `?` gives the empty dictionary |
| `HttpServer.EmptyQueryNoParameters` | oauth2_client/http_server.py:15 | a path whose first `?` is its last character gives the empty dictionary |
| `HttpServer.FirstQuestionMarkStartsQuery` | oauth2_client/http_server.py:14-16 | only the text after the first `?` is read, and a later `?` is ordinary text |
| `HttpServer.KeysComeFromSegments` | oauth2_client/http_server.py:16-19 | a key is in the result if and only if some segment is a parameter with that key |
| `HttpServer.LastSegmentWins` | oauth2_client/http_server.py:16-19 | the value under a key is the decoded value of the last segment with that key, the key kept verbatim |
| `HttpServer.EmptyWhenNoParameterSegment` | oauth2_client/http_server.py:13-18 | the result is empty if and only if no segment has exactly one `=` |
| `HttpServer.DroppedSegment` | oauth2_client/http_server.py:17-18 | a segment with no `=` or several leaves the dictionary unchanged, with no error |
| `HttpServer.ReadWrittenFields` | oauth2_client/http_server.py:16-19 | the segments `name=written` read back as each name with the decoding of what was written |
| `HttpServer.PlainRoundTrip` | tests/oauth2_client_tests/test_http_server.py:37-43 | `?k1=v1&k2=v2…` with delimiter-free names and values and no `%` in values reads back as exactly those fields |
| `HttpServer.EncodedRoundTrip` | tests/oauth2_client_tests/test_credential_manager.py:109-113 | with delimiter-free names and percent-encoded values, the query reads back as exactly the original fields |
| `Scenarios.ListenerTestRequests` | tests/oauth2_client_tests/test_http_server.py:23-43 | a request with no query gives `{}` and `?toto=titi` gives `{'toto': 'titi'}` |
| `Scenarios.RedirectCarriesCodeAndState` | tests/oauth2_client_tests/test_credential_manager.py:55 | the fake server's redirect `?code=123&state=state_test` gives exactly the code and the state |
| `Scenarios.AuthorizeRequestReadsBack` | tests/oauth2_client_tests/test_credential_manager.py:107-113 | the encoded authorization request yields `redirect_uri`, `state`, `client_id` and `scope` exactly |

## Left out

- `start_http_server`, the nested `Handler.do_GET` and `stop_http_server` (oauth2_client/http_server.py:23-56): TCP binding, a `serve_forever` thread and a cross-thread `shutdown()` are socket I/O and concurrency.
- The JSON response body and the status and header writing of `do_GET` (oauth2_client/http_server.py:28-38): library serialisation and network output.
- The callback invocation in `do_GET`: the model returns the dictionary that would be handed to the callback.
- The credential manager (URL building, state check, token exchange, bearer headers): `oauth2_client/credentials_manager.py` is not part of this model, so its own URL encoder is unknown; `Percent.Quote` is an RFC 3986 encoder of this model, not the repository's.
- The text-versus-bytes details of Python 2 `unquote` (its separate branch for `unicode` input, non-ASCII and UTF-8 decoding): characters stand for bytes and only `%HH` is decoded.
- `Percent.Unquote`: its contract states only the length bound and the escape-free case; the full behaviour is stated by `Percent.UnquoteQuote` and `Percent.UnquoteAgreesWithSplit`.
