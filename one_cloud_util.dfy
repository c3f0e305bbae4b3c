/**
 * The URL builder of OneCloudUtil: `getMsocapiurl` and
 * `addEnvironmentSpecificQueryParams`.  The two globals the source reads,
 * the Data Connector endpoint and its environment query parameters, are
 * explicit parameters here: `endpoint` and `queryParams`, an ordered
 * sequence of key/value pairs standing for the iteration order of the
 * object's keys.  Keys and values are inserted verbatim: no encoding.
 */
module OneCloudUtil {

  datatype Option<T> = None | Some(value: T)

  /** One environment query parameter: a key and its value. */
  type Param = (string, string)

  /** `key=value`, unencoded. */
  function Segment(p: Param): (r: string)
    ensures |r| == |p.0| + 1 + |p.1|
    ensures r[..|p.0|] == p.0 && r[|p.0|] == '=' && r[|p.0| + 1..] == p.1
  {
    p.0 + "=" + p.1
  }

  /** The JavaScript truthiness test on the query string: absent
      (null, undefined) and the empty string both fail it. */
  predicate HasQuery(querystring: Option<string>)
    ensures querystring == None || querystring == Some("") ==> !HasQuery(querystring)
    ensures querystring.Some? && querystring.value != "" ==> HasQuery(querystring)
  {
    querystring.Some? && |querystring.value| > 0
  }

  // ---------------------------------------------------------------------
  // The loop of addEnvironmentSpecificQueryParams, as functions
  // ---------------------------------------------------------------------

  /** One iteration of the loop: a `&` exactly when the URL built so far
      already contains a `?`, then the parameter's segment. */
  function Step(url: string, p: Param): (r: string)
    ensures url <= r
    ensures |r| == |url| + (if '?' in url then 1 else 0) + |Segment(p)|
    ensures '?' in url ==> r[|url|] == '&'
    ensures r[|url| + (if '?' in url then 1 else 0)..] == Segment(p)
  {
    (if '?' in url then url + "&" else url) + Segment(p)
  }

  /** The URL after the loop has run over all of `queryParams`, in order. */
  function AddParams(url: string, queryParams: seq<Param>): (r: string)
    ensures url <= r
    decreases |queryParams|
  {
    if queryParams == [] then url
    else Step(AddParams(url, queryParams[..|queryParams| - 1]), queryParams[|queryParams| - 1])
  }

  // ---------------------------------------------------------------------
  // Reference definitions that do not look at the accumulated string
  // ---------------------------------------------------------------------

  /** A parameter whose key or value carries a `?` of its own. */
  predicate CarriesQueryMark(p: Param) {
    '?' in p.0 || '?' in p.1
  }

  /** Whether a `?` is present once `url` has been extended by `queryParams`:
      either `url` had one, or some key or value brought one (the lemma
      MarksQueryExists states it with a quantifier). */
  predicate MarksQuery(url: string, queryParams: seq<Param>)
    decreases |queryParams|
  {
    if queryParams == [] then '?' in url
    else MarksQuery(url, queryParams[..|queryParams| - 1]) || CarriesQueryMark(queryParams[|queryParams| - 1])
  }

  /** What the loop appends to `url`: for each parameter in order, a `&`
      when a `?` is already present (by `MarksQuery`), then `key=value`. */
  function ParamSuffix(url: string, queryParams: seq<Param>): string
    decreases |queryParams|
  {
    if queryParams == [] then ""
    else
      var init := queryParams[..|queryParams| - 1];
      ParamSuffix(url, init) + (if MarksQuery(url, init) then "&" else "") + Segment(queryParams[|queryParams| - 1])
  }

  /** Every parameter, in order, as `&key=value`. */
  function AmpJoined(queryParams: seq<Param>): string {
    if queryParams == [] then "" else "&" + Segment(queryParams[0]) + AmpJoined(queryParams[1..])
  }

  /** Every parameter, in order, as `key=value`, with no separator at all. */
  function PlainJoined(queryParams: seq<Param>): string {
    if queryParams == [] then "" else Segment(queryParams[0]) + PlainJoined(queryParams[1..])
  }

  /** The total length of the `key=value` segments. */
  function SegmentsLength(queryParams: seq<Param>): nat {
    if queryParams == [] then 0 else |queryParams[0].0| + 1 + |queryParams[0].1| + SegmentsLength(queryParams[1..])
  }

  /** How many iterations start with a `?` already present, and so insert `&`. */
  function SeparatorCount(url: string, queryParams: seq<Param>): nat
    decreases |queryParams|
  {
    if queryParams == [] then 0
    else
      var init := queryParams[..|queryParams| - 1];
      SeparatorCount(url, init) + (if MarksQuery(url, init) then 1 else 0)
  }

  // ---------------------------------------------------------------------
  // Lemmas about the loop
  // ---------------------------------------------------------------------

  /** After one step a `?` is present exactly when it was before or the
      parameter brought one: `&` and `=` never add one. */
  lemma StepQueryMark(url: string, p: Param)
    ensures ('?' in Step(url, p)) <==> ('?' in url || CarriesQueryMark(p))
  {
  }

  /** `MarksQuery` holds exactly when `url` holds a `?` or some key or value
      does. */
  lemma {:induction false} MarksQueryExists(url: string, queryParams: seq<Param>)
    ensures MarksQuery(url, queryParams)
            <==> ('?' in url || exists j :: 0 <= j < |queryParams| && CarriesQueryMark(queryParams[j]))
    decreases |queryParams|
  {
    if queryParams != [] {
      var init := queryParams[..|queryParams| - 1];
      var last := |queryParams| - 1;
      MarksQueryExists(url, init);
      if '?' !in url && (exists j :: 0 <= j < |queryParams| && CarriesQueryMark(queryParams[j])) {
        var j :| 0 <= j < |queryParams| && CarriesQueryMark(queryParams[j]);
        if j < last { assert init[j] == queryParams[j]; }
      }
      if '?' !in url && (exists j :: 0 <= j < |init| && CarriesQueryMark(init[j])) {
        var j :| 0 <= j < |init| && CarriesQueryMark(init[j]);
        assert init[j] == queryParams[j];
      }
    }
  }

  /** The URL contains a `?` after the loop exactly when the input did or
      some key or value carried one. */
  lemma {:induction false} AddParamsQueryMark(url: string, queryParams: seq<Param>)
    ensures ('?' in AddParams(url, queryParams)) <==> MarksQuery(url, queryParams)
    decreases |queryParams|
  {
    if queryParams != [] {
      var init := queryParams[..|queryParams| - 1];
      var last := queryParams[|queryParams| - 1];
      assert queryParams == init + [last];
      AddParamsQueryMark(url, init);
      StepQueryMark(AddParams(url, init), last);
    }
  }

  /** One step on a URL already split into a prefix and what the loop has
      appended so far. */
  lemma StepAppends(url: string, suffix: string, p: Param, marked: bool)
    requires ('?' in url + suffix) == marked
    ensures Step(url + suffix, p) == url + (suffix + (if marked then "&" else "") + Segment(p))
  {
  }

  /** The loop only appends to `url`: exactly one `key=value` segment per
      parameter, in the given order, each preceded by `&` exactly when a `?`
      is already present. */
  lemma {:induction false} AddParamsAppends(url: string, queryParams: seq<Param>)
    ensures AddParams(url, queryParams) == url + ParamSuffix(url, queryParams)
    decreases |queryParams|
  {
    if queryParams != [] {
      var init := queryParams[..|queryParams| - 1];
      AddParamsAppends(url, init);
      AddParamsQueryMark(url, init);
      StepAppends(url, ParamSuffix(url, init), queryParams[|queryParams| - 1], MarksQuery(url, init));
    }
  }

  lemma {:induction false} SegmentsLengthSnoc(init: seq<Param>, p: Param)
    ensures SegmentsLength(init + [p]) == SegmentsLength(init) + |p.0| + 1 + |p.1|
    decreases |init|
  {
    if init != [] {
      assert (init + [p])[1..] == init[1..] + [p];
      SegmentsLengthSnoc(init[1..], p);
    }
  }

  /** The length of the result: the input, every `key=value` segment, and
      one character per `&` inserted. */
  lemma {:induction false} AddParamsLength(url: string, queryParams: seq<Param>)
    ensures |AddParams(url, queryParams)| == |url| + SegmentsLength(queryParams) + SeparatorCount(url, queryParams)
    ensures SeparatorCount(url, queryParams) <= |queryParams|
    ensures '?' in url ==> SeparatorCount(url, queryParams) == |queryParams|
    decreases |queryParams|
  {
    if queryParams != [] {
      var init := queryParams[..|queryParams| - 1];
      var last := queryParams[|queryParams| - 1];
      assert queryParams == init + [last];
      AddParamsLength(url, init);
      AddParamsQueryMark(url, init);
      SegmentsLengthSnoc(init, last);
      if '?' in url {
        MarksQueryExists(url, init);
      }
    }
  }

  lemma {:induction false} AmpJoinedSnoc(init: seq<Param>, p: Param)
    ensures AmpJoined(init + [p]) == AmpJoined(init) + "&" + Segment(p)
    decreases |init|
  {
    if init != [] {
      assert (init + [p])[1..] == init[1..] + [p];
      AmpJoinedSnoc(init[1..], p);
    } else {
      assert [p][1..] == [];
    }
  }

  lemma {:induction false} PlainJoinedSnoc(init: seq<Param>, p: Param)
    ensures PlainJoined(init + [p]) == PlainJoined(init) + Segment(p)
    decreases |init|
  {
    if init != [] {
      assert (init + [p])[1..] == init[1..] + [p];
      PlainJoinedSnoc(init[1..], p);
    } else {
      assert [p][1..] == [];
    }
  }

  /** Once the URL holds a `?`, every parameter, the first included, is
      appended as `&key=value`. */
  lemma {:induction false} AddParamsAfterQueryMark(url: string, queryParams: seq<Param>)
    requires '?' in url
    ensures AddParams(url, queryParams) == url + AmpJoined(queryParams)
    decreases |queryParams|
  {
    if queryParams != [] {
      var init := queryParams[..|queryParams| - 1];
      var last := queryParams[|queryParams| - 1];
      assert queryParams == init + [last];
      AddParamsAfterQueryMark(url, init);
      StepAppends(url, AmpJoined(init), last, true);
      AmpJoinedSnoc(init, last);
    }
  }

  /** With no `?` anywhere, in the URL or in any key or value, the segments
      are concatenated with no separator at all. */
  lemma {:induction false} AddParamsWithoutQueryMark(url: string, queryParams: seq<Param>)
    requires !MarksQuery(url, queryParams)
    ensures AddParams(url, queryParams) == url + PlainJoined(queryParams)
    decreases |queryParams|
  {
    if queryParams != [] {
      var init := queryParams[..|queryParams| - 1];
      var last := queryParams[|queryParams| - 1];
      assert queryParams == init + [last];
      calc {
        AddParams(url, queryParams);
        Step(AddParams(url, init), last);
        { AddParamsQueryMark(url, init); }
        AddParams(url, init) + Segment(last);
        { AddParamsWithoutQueryMark(url, init); }
        (url + PlainJoined(init)) + Segment(last);
        url + (PlainJoined(init) + Segment(last));
        { PlainJoinedSnoc(init, last); }
        url + PlainJoined(queryParams);
      }
    }
  }

  /** Extending the processed prefix by one parameter is one more `Step`. */
  lemma AddParamsPrefixStep(url: string, queryParams: seq<Param>, i: nat)
    requires i < |queryParams|
    ensures AddParams(url, queryParams[..i + 1]) == Step(AddParams(url, queryParams[..i]), queryParams[i])
  {
    assert queryParams[..i + 1][..i] == queryParams[..i];
  }

  // ---------------------------------------------------------------------
  // addEnvironmentSpecificQueryParams
  // ---------------------------------------------------------------------

  /** Appends every environment parameter to `url`, re-checking for a `?`
      before each one. */
  method AddEnvironmentSpecificQueryParams(url: string, queryParams: seq<Param>) returns (r: string)
    ensures r == AddParams(url, queryParams)
    ensures r == url + ParamSuffix(url, queryParams)
    ensures queryParams == [] ==> r == url
  {
    r := url;
    var i := 0;
    while i < |queryParams|
      invariant 0 <= i <= |queryParams|
      invariant r == AddParams(url, queryParams[..i])
    {
      var key := queryParams[i].0;
      var value := queryParams[i].1;
      if '?' in r {
        r := r + "&";
      }
      r := r + (key + "=" + value);
      AddParamsPrefixStep(url, queryParams, i);
      i := i + 1;
    }
    assert queryParams[..i] == queryParams;
    AddParamsAppends(url, queryParams);
  }

  // ---------------------------------------------------------------------
  // getMsocapiurl
  // ---------------------------------------------------------------------

  /** The URL handed to addEnvironmentSpecificQueryParams: endpoint and path,
      then `?querystring`, or a bare `?` when there is no query string but
      there are environment parameters. */
  function BaseUrl(endpoint: string, path: string, querystring: Option<string>, queryParams: seq<Param>): (r: string)
    ensures endpoint + path <= r
    ensures HasQuery(querystring) ==> endpoint + path + "?" + querystring.value <= r
    ensures (HasQuery(querystring) || queryParams != []) <==> |r| > |endpoint + path|
    ensures |r| > |endpoint + path| ==> r[|endpoint + path|] == '?'
  {
    if HasQuery(querystring) then endpoint + path + "?" + querystring.value
    else if |queryParams| > 0 then endpoint + path + "?"
    else endpoint + path
  }

  /** The URL getMsocapiurl returns: it always starts with the endpoint and
      the path, and, when the query string is non-empty, with `?` and the
      query string verbatim. */
  function MsocapiUrl(endpoint: string, path: string, querystring: Option<string>, queryParams: seq<Param>): (r: string)
    ensures endpoint + path <= r
    ensures HasQuery(querystring) ==> endpoint + path + "?" + querystring.value <= r
  {
    AddParams(BaseUrl(endpoint, path, querystring, queryParams), queryParams)
  }

  /** The whole result of getMsocapiurl, by case of the query string and the
      parameter list. */
  lemma MsocapiUrlCases(endpoint: string, path: string, querystring: Option<string>, queryParams: seq<Param>)
    ensures HasQuery(querystring) ==>
              MsocapiUrl(endpoint, path, querystring, queryParams)
              == endpoint + path + "?" + querystring.value + AmpJoined(queryParams)
    ensures !HasQuery(querystring) && queryParams == [] ==>
              MsocapiUrl(endpoint, path, querystring, queryParams) == endpoint + path
    ensures !HasQuery(querystring) && queryParams != [] ==>
              MsocapiUrl(endpoint, path, querystring, queryParams) == endpoint + path + "?" + AmpJoined(queryParams)
  {
    var base := BaseUrl(endpoint, path, querystring, queryParams);
    if HasQuery(querystring) || queryParams != [] {
      if HasQuery(querystring) {
        assert base == (endpoint + path) + ("?" + querystring.value);
      }
      assert '?' in base;
      AddParamsAfterQueryMark(base, queryParams);
    }
  }

  /** Builds the URL step by step and hands it to
      AddEnvironmentSpecificQueryParams. */
  method GetMsocapiUrl(endpoint: string, path: string, querystring: Option<string>, queryParams: seq<Param>)
    returns (r: string)
    ensures r == MsocapiUrl(endpoint, path, querystring, queryParams)
    ensures endpoint + path <= r
    ensures HasQuery(querystring) ==> r == endpoint + path + "?" + querystring.value + AmpJoined(queryParams)
    ensures !HasQuery(querystring) && queryParams == [] ==> r == endpoint + path
    ensures !HasQuery(querystring) && queryParams != [] ==> r == endpoint + path + "?" + AmpJoined(queryParams)
  {
    var url := endpoint + path;
    if querystring.Some? && |querystring.value| > 0 {
      url := url + "?" + querystring.value;
    } else if |queryParams| > 0 {
      url := url + "?";
    }
    r := AddEnvironmentSpecificQueryParams(url, queryParams);
    MsocapiUrlCases(endpoint, path, querystring, queryParams);
  }

  /** A concrete result with no (or an empty) query string: the first
      parameter still gets a leading `&`; with no parameters either, the
      path alone. */
  lemma MsocapiUrlBareQueryExample()
    ensures MsocapiUrl("", "/ep", None, [("a", "1"), ("b", "2")]) == "/ep?&a=1&b=2"
    ensures MsocapiUrl("", "/ep", Some(""), [("a", "1"), ("b", "2")]) == "/ep?&a=1&b=2"
    ensures MsocapiUrl("", "/ep", None, []) == "/ep"
  {
    MsocapiUrlBareTwo("", "/ep", None, "a", "1", "b", "2");
    MsocapiUrlBareTwo("", "/ep", Some(""), "a", "1", "b", "2");
    assert "" + "/ep" + "?" + ("&" + "a" + "=" + "1" + "&" + "b" + "=" + "2") == "/ep?&a=1&b=2";
  }

  /** Two parameters and no (or an empty) query string, for any strings. */
  lemma MsocapiUrlBareTwo(endpoint: string, path: string, querystring: Option<string>,
                          k1: string, v1: string, k2: string, v2: string)
    requires !HasQuery(querystring)
    ensures MsocapiUrl(endpoint, path, querystring, [(k1, v1), (k2, v2)])
            == endpoint + path + "?" + ("&" + k1 + "=" + v1 + "&" + k2 + "=" + v2)
  {
    AmpJoinedTwo(k1, v1, k2, v2);
    MsocapiUrlCases(endpoint, path, querystring, [(k1, v1), (k2, v2)]);
  }

  lemma AmpJoinedTwo(k1: string, v1: string, k2: string, v2: string)
    ensures AmpJoined([(k1, v1), (k2, v2)]) == "&" + k1 + "=" + v1 + "&" + k2 + "=" + v2
  {
    assert [(k1, v1), (k2, v2)][1..] == [(k2, v2)];
    assert AmpJoined([(k2, v2)]) == "&" + Segment((k2, v2));
  }

  /** A concrete result with a query string: the parameters follow it
      after `&`. */
  lemma MsocapiUrlQueryExample()
    ensures MsocapiUrl("", "/ep", Some("x=9"), [("a", "1")]) == "/ep?x=9&a=1"
  {
  }
}
