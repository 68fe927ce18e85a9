/** The oBIX URL grammar the client builds by string concatenation: the
    history root, location and point feed URLs, and the history query. */
module Urls {
  import opened Wrappers
  import opened Text

  const HistoryUrlSuffix: string := "/obix/histories/"
  const HistoryQuery: string := "~historyQuery"
  const StartKey: string := "start"
  const EndKey: string := "end"
  const LimitKey: string := "limit"

  /** `baseURL + HISTORY_URL_SUFFIX`: the collection of all histories. */
  function HistoryRoot(base: string): string {
    base + HistoryUrlSuffix
  }

  /** A location (or a raw href) appended to the history root. */
  function LocationUrlText(base: string, location: string): string {
    HistoryRoot(base) + location
  }

  /** The feed URL of the point named `name`: the root, the name, a closing `/`. */
  function PointUrlText(base: string, name: string): string {
    HistoryRoot(base) + name + "/"
  }

  /** The request URL for a history query on point `point` under `location`. */
  function HistoryRequestText(base: string, location: string, point: string, query: string): string {
    HistoryRoot(base) + location + point + "/" + query
  }

  /** The query part: `~historyQuery?start=<start>&end=<end>&limit=<limit>`,
      with the two timestamps already rendered as text. */
  function QueryText(start: string, end: string, limit: Int32): string {
    HistoryQuery + "?" + StartKey + "=" + start + "&" + EndKey + "=" + end + "&" + LimitKey + "=" + IntText(limit)
  }

  /** Recovers the point name from a feed URL under `base`; absent for any
      text that is not such a URL. */
  function PointNameOf(base: string, url: string): Option<string> {
    var root := HistoryRoot(base);
    if |url| > |root| && url[..|root|] == root && url[|url| - 1] == '/' then Some(url[|root|..|url| - 1])
    else None
  }

  /** Feed URLs determine their point name: building then reading back is the identity. */
  lemma PointUrlRoundTrip(base: string, name: string)
    ensures PointNameOf(base, PointUrlText(base, name)) == Some(name)
  {
    var root := HistoryRoot(base);
    var url := PointUrlText(base, name);
    assert url[..|root|] == root;
    assert url[|root|..|url| - 1] == name;
  }

  /** Different point names never share a feed URL. */
  lemma PointUrlInjective(base: string, a: string, b: string)
    requires PointUrlText(base, a) == PointUrlText(base, b)
    ensures a == b
  {
    PointUrlRoundTrip(base, a);
    PointUrlRoundTrip(base, b);
  }

  /** A history request is the feed URL of `location + point` followed by the query. */
  lemma HistoryRequestExtendsPointUrl(base: string, location: string, point: string, query: string)
    ensures HistoryRequestText(base, location, point, query) == PointUrlText(base, location + point) + query
    ensures HistoryRequestText(base, location, point, query) == LocationUrlText(base, location) + point + "/" + query
  {
  }

  /** Location URLs append the raw href: a reference whose href is already an
      absolute path repeats the history root. */
  lemma LocationOfAbsoluteHref()
    ensures LocationUrlText("http://h", "/obix/histories/Building1/") == "http://h/obix/histories//obix/histories/Building1/"
  {
  }

  /** `key=value`, split at the first `=`; absent without one. */
  function ParseParam(part: string): Option<(string, string)> {
    if '=' in part then
      var i := IndexOf(part, '=');
      Some((part[..i], part[i + 1..]))
    else None
  }

  function ParseParams(parts: seq<string>): Option<seq<(string, string)>> {
    if |parts| == 0 then Some([])
    else
      var head := ParseParam(parts[0]);
      var tail := ParseParams(parts[1..]);
      if head.Some? && tail.Some? then Some([head.value] + tail.value) else None
  }

  /** How a server reads a query: the `~historyQuery?` prefix, then
      `&`-separated `key=value` parameters in order. */
  function ParseQuery(q: string): Option<seq<(string, string)>> {
    var prefix := HistoryQuery + "?";
    if |q| >= |prefix| && q[..|prefix|] == prefix then ParseParams(SplitOn(q[|prefix|..], '&'))
    else None
  }

  lemma ParseParamKey(key: string, value: string)
    requires '=' !in key
    ensures ParseParam(key + "=" + value) == Some((key, value))
  {
    IndexOfAfter(key, '=', value);
    var part := key + "=" + value;
    assert part[..|key|] == key;
    assert part[|key| + 1..] == value;
  }

  lemma IntTextHasNoAmpersand(n: Int32)
    ensures '&' !in IntText(n)
  {
    var t := IntText(n);
    if n < 0 {
      assert t == "-" + NatText(-(n as int));
      assert forall k :: 0 <= k < |t| ==> t[k] == '-' || IsDigit(t[k]);
    } else {
      assert forall k :: 0 <= k < |t| ==> IsDigit(t[k]);
    }
  }

  lemma SplitThree(a: string, b: string, c: string)
    requires '&' !in a && '&' !in b && '&' !in c
    ensures SplitOn(a + "&" + (b + "&" + c), '&') == [a, b, c]
  {
    SplitOnAfter(a, '&', b + "&" + c);
    SplitOnAfter(b, '&', c);
    SplitOnNone(c, '&');
  }

  /** The query is the fixed prefix followed by the three `key=value` parameters joined by `&`. */
  lemma QueryShape(start: string, end: string, limit: Int32)
    ensures var prefix := HistoryQuery + "?";
      var q := QueryText(start, end, limit);
      |q| >= |prefix| && q[..|prefix|] == prefix
      && q[|prefix|..] == (StartKey + "=" + start) + "&" + ((EndKey + "=" + end) + "&" + (LimitKey + "=" + IntText(limit)))
  {
    var prefix := HistoryQuery + "?";
    var rest := (StartKey + "=" + start) + "&" + ((EndKey + "=" + end) + "&" + (LimitKey + "=" + IntText(limit)));
    assert QueryText(start, end, limit) == prefix + rest;
  }

  lemma ParseThreeParams(k1: string, v1: string, k2: string, v2: string, k3: string, v3: string)
    requires '=' !in k1 && '=' !in k2 && '=' !in k3
    ensures ParseParams([k1 + "=" + v1, k2 + "=" + v2, k3 + "=" + v3]) == Some([(k1, v1), (k2, v2), (k3, v3)])
  {
    var p1, p2, p3 := k1 + "=" + v1, k2 + "=" + v2, k3 + "=" + v3;
    ParseParamKey(k1, v1);
    ParseParamKey(k2, v2);
    ParseParamKey(k3, v3);
    var noParts: seq<string>, noParams: seq<(string, string)> := [], [];
    ParseParamsCons(p3, noParts);
    assert [p3] + noParts == [p3];
    assert [(k3, v3)] + noParams == [(k3, v3)];
    ParseParamsCons(p2, [p3]);
    assert [p2] + [p3] == [p2, p3];
    ParseParamsCons(p1, [p2, p3]);
    assert [p1] + [p2, p3] == [p1, p2, p3];
    assert [(k2, v2)] + [(k3, v3)] == [(k2, v2), (k3, v3)];
    assert [(k1, v1)] + [(k2, v2), (k3, v3)] == [(k1, v1), (k2, v2), (k3, v3)];
    assert ParseParams(noParts) == Some(noParams);
  }

  lemma ParseParamsCons(part: string, rest: seq<string>)
    ensures ParseParams([part] + rest) ==
      if ParseParam(part).Some? && ParseParams(rest).Some? then Some([ParseParam(part).value] + ParseParams(rest).value)
      else None
  {
    assert ([part] + rest)[1..] == rest;
  }

  /** The query reads back as exactly three parameters, start, end and limit
      in that order, carrying the two timestamps verbatim and the limit as a
      decimal that parses back to the limit. Timestamps must not contain `&`
      (ISO-8601 text never does), since they are not percent-encoded. */
  lemma QueryRoundTrip(start: string, end: string, limit: Int32)
    requires '&' !in start && '&' !in end
    ensures ParseQuery(QueryText(start, end, limit)) == Some([(StartKey, start), (EndKey, end), (LimitKey, IntText(limit))])
    ensures ParseInt(IntText(limit)) == Some(limit)
  {
    QueryShape(start, end, limit);
    IntTextHasNoAmpersand(limit);
    SplitThree(StartKey + "=" + start, EndKey + "=" + end, LimitKey + "=" + IntText(limit));
    ParseThreeParams(StartKey, start, EndKey, end, LimitKey, IntText(limit));
    IntTextRoundTrip(limit);
  }
}
