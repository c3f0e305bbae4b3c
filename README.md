# OneCloudUtil URL builder

A Dafny model of the URL builder of `OneCloudUtil`: `getMsocapiurl`, which
builds the Data Connector API URL from a path and an optional query string,
and `addEnvironmentSpecificQueryParams`, which appends the environment's
query parameters to a URL. It lives in `one_cloud_util.dfy`, module
`OneCloudUtil`.

The two globals the source reads, the Data Connector endpoint and its
environment query parameters, are parameters here. The endpoint is a
`string`. The parameters are an ordered `seq<(string, string)>` of key/value
pairs, standing for the order in which the object's keys are enumerated. The
query string is an `Option<string>`: `None` stands for `null` and `undefined`,
and `Some("")` behaves like them, as the source's truthiness test makes it.

Both source functions build `url` step by step with `+=`, the second inside
a `forEach` over the parameter keys, so both are methods here.
`AddEnvironmentSpecificQueryParams` runs a loop over the parameters with a
string accumulator. Before each `key=value` segment it re-checks whether the
accumulator already holds a `?`. `GetMsocapiUrl` builds the URL through
conditional appends and then calls it. Each method is proved against a
specification function (`AddParams`, `MsocapiUrl`). Lemmas connect those
functions to reference definitions that do not look at the accumulated
string:
- `ParamSuffix` says a `?` is present when the input URL had one or an
  earlier key or value brought one.
- `AmpJoined` is every parameter written as `&key=value`.
- `PlainJoined` is every parameter written as `key=value` with no separator.

With no query string and at least one parameter, the code appends a bare
`?`. The loop then sees that `?` and puts `&` before the first parameter
too. So endpoint `""`, path `/ep`, no query string and `a=1, b=2` give
`/ep?&a=1&b=2`, not the conventional `/ep?a=1&b=2`. `MsocapiUrlCases` and
`MsocapiUrlBareQueryExample` state this behaviour.

## Model

| member | source | states |
|---|---|---|
| OneCloudUtil.HasQuery | au.js:14 | the truthiness test on the query string: absent and empty both fail it, any non-empty string passes |
| OneCloudUtil.Segment | au.js:33 | the `key=value` template: the key verbatim, then `=`, then the value verbatim, with length key + 1 + value |
| OneCloudUtil.Step | au.js:32-33 | one iteration: the URL so far is kept as a prefix, one `&` follows it exactly when it holds a `?`, then the segment; the length grows by the segment plus that `&` |
| OneCloudUtil.AddParams | au.js:31-34 | the URL after the loop over all parameters in order; the input URL is a prefix of it |
| OneCloudUtil.StepQueryMark | au.js:32-33 | after one iteration the URL holds a `?` exactly when it did before or the parameter's key or value holds one; `&` and `=` never add one |
| OneCloudUtil.MarksQueryExists | au.js:31-33 | the reference predicate `MarksQuery` holds exactly when the URL holds a `?` or some key or value does |
| OneCloudUtil.AddParamsQueryMark | au.js:31-34 | after the loop the URL holds a `?` exactly when the input URL did or some key or value did |
| OneCloudUtil.AddParamsAppends | au.js:29-36 | the loop only appends to `url`: one unencoded `key=value` segment per parameter, in order, each preceded by `&` exactly when a `?` is already present; the empty list leaves `url` unchanged |
| OneCloudUtil.AddParamsLength | au.js:31-34 | output length is input length plus the sum over parameters of key length + 1 + value length plus the number of `&` inserted; at most one `&` per parameter, and exactly one per parameter when the input already holds `?` |
| OneCloudUtil.AddParamsAfterQueryMark | au.js:32-33 | when the input URL holds a `?`, every parameter, the first included, is appended as `&key=value` |
| OneCloudUtil.AddParamsWithoutQueryMark | au.js:32-33 | when neither the URL nor any key or value holds a `?`, the segments are concatenated with no separator |
| OneCloudUtil.AddEnvironmentSpecificQueryParams | au.js:29-36 | the loop computes `AddParams`, which is `url` followed by `ParamSuffix`; with no parameters it returns `url` unchanged |
| OneCloudUtil.MsocapiUrlCases | au.js:9-22 | non-empty query string: `endpoint + path + "?" + querystring` then `&key=value` per parameter; empty or absent query string with no parameters: exactly `endpoint + path`; empty or absent query string with parameters: `endpoint + path + "?"` then `&key=value` per parameter, the first included |
| OneCloudUtil.BaseUrl | au.js:10-17 | the URL before the parameters: starts with `endpoint + path`; with a non-empty query string, with `endpoint + path + "?" + querystring` verbatim; it is longer than `endpoint + path` exactly when there is a query string or a parameter, and then the next character is `?` |
| OneCloudUtil.MsocapiUrl | au.js:9-22 | the URL getMsocapiurl returns: it starts with `endpoint + path`, and, with a non-empty query string, with `endpoint + path + "?" + querystring` verbatim |
| OneCloudUtil.GetMsocapiUrl | au.js:9-22 | the conditional appends followed by the call compute `MsocapiUrl`, whose result is given in each of the three cases above |
| OneCloudUtil.MsocapiUrlBareQueryExample | au.js:9-36 | `/ep` with no (or an empty) query string and `a=1, b=2` gives `/ep?&a=1&b=2`; with no parameters either it gives `/ep` |
| OneCloudUtil.MsocapiUrlBareTwo | au.js:9-36 | for any endpoint, path and two parameters, with no (or an empty) query string: `endpoint + path + "?"`, then `&k1=v1&k2=v2` |
| OneCloudUtil.MsocapiUrlQueryExample | au.js:9-36 | `/ep` with query string `x=9` and parameter `a=1` gives `/ep?x=9&a=1` |

## Left out

- `waitForElement` (au.js:44-65): it is built on browser facilities (the document, `querySelector`, `MutationObserver`, promises) and on asynchronous observation of DOM mutations. Modelling it would need an invented DOM and event loop.
- `sendTelemetry` (au.js:74-89): it is a foreign call on an ambient analytics global, with nothing to verify. Its guard `analytics !== null` holds when `analytics` is `undefined`, so with no `telemetry` global it calls a method on `undefined`. That is not a silent no-op.
- The endpoint and parameter globals, and the order in which `Object.keys` enumerates them: these are external state and engine behaviour. They are parameters here. The sequence may repeat a key, which an object cannot. Nothing proved depends on keys being distinct.
- Non-string values: the source interpolates the endpoint, the path and the parameter values with template literals, which would turn a non-string into text. The model takes strings only. A truthy non-string query string with no `length` (a number, `true`) fails the `length > 0` test and is handled like an absent one. One with a positive `length` (an array) would be interpolated as text. Neither is modelled.
- String lengths: Dafny counts a `string`'s length in Unicode scalar values, while JavaScript's `length` counts UTF-16 code units. `AddParamsLength` only adds lengths up, and a `?` is never part of a surrogate pair, so what is proved holds in either unit. The numbers are not directly JavaScript's `length`.
- URL encoding and URL validity: the source does neither, so the model does neither.
