/** The oBIX history client: listing locations and points, and turning the
    records of a history query into a time series. The network fetch, the
    URL constructor, the timestamp and number parsers and the clock are the
    client's collaborators and are passed in as `Oracles`. */
module Obix {
  import opened Wrappers
  import opened Sequences
  import opened Text
  import opened Xml
  import opened Urls
  import opened LinkedMap

  const DoubleValueTag: string := "real"
  const ValueAttr: string := "val"
  const TimestampTag: string := "abstime"
  const Href: string := "href"

  /** `//list/obj`: the history records of a query result. */
  const ListObj: ChildPath := ChildPath("list", "obj")
  /** `//obj/ref`: the references of a location listing. */
  const ObjRef: ChildPath := ChildPath("obj", "ref")

  /** The collaborators, with `U` the URL type, `T` the timestamp type and
      `V` the numeric value type:
      - `parseUrl` is `new URL(text)`; absent when it throws MalformedURLException;
      - `fetch` is the authenticated GET plus XML parse, giving the document's
        root element; absent when the request or the parse failed, where the
        client goes on with a null document;
      - `parseTime` is the ISO-8601 `dateTime()` parser; absent when it rejects the text;
      - `formatTime` is `DateTime.toString()`;
      - `parseDouble` is `Double.valueOf`; absent when it rejects the text;
      - `clock(i)` is `new DateTime()` read while decoding the i-th record. */
  datatype Oracles<!U, !T, V> = Oracles(
    parseUrl: string -> Option<U>,
    fetch: U -> Option<Node>,
    parseTime: string -> Option<T>,
    formatTime: T -> string,
    parseDouble: string -> Option<V>,
    clock: nat -> T)

  /** The exceptions that escape an operation. */
  datatype ObixError =
    | MalformedUrl(text: string)
    | MalformedTimestamp(text: string)
    | MalformedNumber(text: string)

  /** An XPath query evaluated on the fetched document. A null document is
      evaluated as an empty document and selects nothing; otherwise the
      result keeps, in document order, every descendant that is an element
      named `path.child` under an element named `path.parent`. */
  function SelectDocument(path: ChildPath, doc: Option<Node>): (r: seq<Node>)
    ensures doc.None? ==> r == []
    ensures doc.Some? ==> r == FilterMap(ParentTagged(doc.value), ChosenBy(path))
    ensures doc.Some? ==> IsSubsequence(r, Descendants(doc.value))
    ensures forall i :: 0 <= i < |r| ==> IsElementNamed(r[i], path.child)
  {
    match doc
    case None => []
    case Some(root) =>
      SelectInDocumentOrder(path, root);
      SelectYieldsChildTag(path, root);
      SelectByParentTag(path, root);
      Select(path, root)
  }

  /** The `href` attribute of a node; absent for a node without attributes
      (a text node) or without that attribute. */
  function HrefOf(n: Node): (r: Option<string>)
    ensures r.Some? <==> n.Element? && Href in n.attrs
    ensures r.Some? ==> r.value == n.attrs[Href]
  {
    match Attributes(n)
    case None => None
    case Some(attrs) => if Href in attrs then Some(attrs[Href]) else None
  }

  /** The point name a reference node carries: its stripped href. */
  function NameOf(n: Node): Option<string> {
    match HrefOf(n)
    case None => None
    case Some(h) => Some(Strip(h))
  }

  /** `getPointNames(NodeList)`: the stripped href of every node that has
      one, in node order; nodes without one are skipped. */
  function PointNames(nodes: seq<Node>): (names: seq<string>)
    ensures |names| <= |nodes|
    ensures forall k :: 0 <= k < |names| ==> NoEdgeSlash(names[k])
  {
    NamesAreStripped(nodes);
    FilterMap(nodes, NameOf)
  }

  lemma NamesAreStripped(nodes: seq<Node>)
    ensures forall k :: 0 <= k < |FilterMap(nodes, NameOf)| ==> NoEdgeSlash(FilterMap(nodes, NameOf)[k])
  {
    var idx := FilterMapEnumerates(nodes, NameOf);
  }

  /** Exactly one name per node with an href, in node order: `PointNames`
      lists `Strip(href)` for the nodes at positions `idx`, which are
      increasing and are all the positions holding a node with an href. */
  lemma PointNamesEnumerate(nodes: seq<Node>) returns (idx: seq<nat>)
    ensures |idx| == |PointNames(nodes)|
    ensures forall k :: 0 <= k < |idx| ==>
      idx[k] < |nodes| && HrefOf(nodes[idx[k]]).Some?
      && PointNames(nodes)[k] == Strip(HrefOf(nodes[idx[k]]).value)
    ensures forall k, l :: 0 <= k < l < |idx| ==> idx[k] < idx[l]
    ensures forall i :: 0 <= i < |nodes| && nodes[i].Element? && Href in nodes[i].attrs ==> i in idx
  {
    idx := FilterMapEnumerates(nodes, NameOf);
  }

  /** The URL for one point name, if `new URL` accepts it. The location is
      not part of it. */
  function PointUrlOf<U>(base: string, parseUrl: string -> Option<U>, name: string): Option<U> {
    parseUrl(PointUrlText(base, name))
  }

  /** `getPointURLs(NodeList)`: the feed URL of each point name in order;
      names whose URL is malformed are left out, the others kept. */
  function PointUrls<U>(base: string, nodes: seq<Node>, parseUrl: string -> Option<U>): (urls: seq<U>)
    ensures |urls| <= |PointNames(nodes)|
  {
    FilterMap(PointNames(nodes), name => PointUrlOf(base, parseUrl, name))
  }

  /** Each URL is the parse of `base + "/obix/histories/" + name + "/"` for a
      point name, in the names' order, and every name whose URL parses
      contributes one. */
  lemma PointUrlsEnumerate<U>(base: string, nodes: seq<Node>, parseUrl: string -> Option<U>) returns (idx: seq<nat>)
    ensures |idx| == |PointUrls(base, nodes, parseUrl)|
    ensures forall k :: 0 <= k < |idx| ==>
      idx[k] < |PointNames(nodes)|
      && parseUrl(HistoryRoot(base) + PointNames(nodes)[idx[k]] + "/") == Some(PointUrls(base, nodes, parseUrl)[k])
    ensures forall k, l :: 0 <= k < l < |idx| ==> idx[k] < idx[l]
    ensures forall i :: 0 <= i < |PointNames(nodes)| && parseUrl(PointUrlText(base, PointNames(nodes)[i])).Some? ==> i in idx
  {
    idx := FilterMapEnumerates(PointNames(nodes), name => PointUrlOf(base, parseUrl, name));
  }

  /** The location URL for one reference node: the RAW href appended to the
      history root, if the node has an href and `new URL` accepts the text. */
  function LocationUrlOf<U>(base: string, parseUrl: string -> Option<U>, n: Node): Option<U> {
    match HrefOf(n)
    case None => None
    case Some(h) => parseUrl(LocationUrlText(base, h))
  }

  /** The URL list `getLocations` builds from the reference nodes. */
  function LocationUrls<U>(base: string, refs: seq<Node>, parseUrl: string -> Option<U>): (urls: seq<U>)
    ensures |urls| <= |refs|
  {
    FilterMap(refs, n => LocationUrlOf(base, parseUrl, n))
  }

  /** Partial success: one URL per reference node that has an href and whose
      URL parses, in node order, built from the unstripped href. */
  lemma LocationUrlsEnumerate<U>(base: string, refs: seq<Node>, parseUrl: string -> Option<U>) returns (idx: seq<nat>)
    ensures |idx| == |LocationUrls(base, refs, parseUrl)|
    ensures forall k :: 0 <= k < |idx| ==>
      idx[k] < |refs| && HrefOf(refs[idx[k]]).Some?
      && parseUrl(HistoryRoot(base) + HrefOf(refs[idx[k]]).value) == Some(LocationUrls(base, refs, parseUrl)[k])
    ensures forall k, l :: 0 <= k < l < |idx| ==> idx[k] < idx[l]
    ensures forall i :: (0 <= i < |refs| && HrefOf(refs[i]).Some?
      && parseUrl(LocationUrlText(base, HrefOf(refs[i]).value)).Some?) ==> i in idx
  {
    idx := FilterMapEnumerates(refs, n => LocationUrlOf(base, parseUrl, n));
  }

  /** Fetches `text` and evaluates `path` on the result; a malformed `text`
      escapes as an error before any request is made. */
  function FetchSelect<U, T, V>(text: string, path: ChildPath, o: Oracles<U, T, V>): (r: Result<seq<Node>, ObixError>)
    ensures o.parseUrl(text).None? <==> r == Failure(MalformedUrl(text))
    ensures o.parseUrl(text).Some? ==> r == Success(SelectDocument(path, o.fetch(o.parseUrl(text).value)))
    ensures r.Success? ==> forall i :: 0 <= i < |r.value| ==> IsElementNamed(r.value[i], path.child)
  {
    match o.parseUrl(text)
    case None => Failure(MalformedUrl(text))
    case Some(url) => Success(SelectDocument(path, o.fetch(url)))
  }

  /** `getLocations()`: the location URLs listed under the history root. */
  function Locations<U, T, V>(base: string, o: Oracles<U, T, V>): (r: Result<seq<U>, ObixError>)
    ensures o.parseUrl(HistoryRoot(base)).None? <==> r == Failure(MalformedUrl(HistoryRoot(base)))
    ensures o.parseUrl(HistoryRoot(base)).Some? && o.fetch(o.parseUrl(HistoryRoot(base)).value).None? ==> r == Success([])
    ensures o.parseUrl(HistoryRoot(base)).Some? ==>
      r == Success(LocationUrls(base, SelectDocument(ObjRef, o.fetch(o.parseUrl(HistoryRoot(base)).value)), o.parseUrl))
  {
    match FetchSelect(HistoryRoot(base), ObjRef, o)
    case Failure(e) => Failure(e)
    case Success(refs) => Success(LocationUrls(base, refs, o.parseUrl))
  }

  /** `getPointNames(location)`. */
  function PointNamesAt<U, T, V>(base: string, location: string, o: Oracles<U, T, V>): (r: Result<seq<string>, ObixError>)
    ensures o.parseUrl(LocationUrlText(base, location)).None? <==> r == Failure(MalformedUrl(LocationUrlText(base, location)))
    ensures r.Success? ==> forall k :: 0 <= k < |r.value| ==> NoEdgeSlash(r.value[k])
    ensures o.parseUrl(LocationUrlText(base, location)).Some? && o.fetch(o.parseUrl(LocationUrlText(base, location)).value).None? ==> r == Success([])
    ensures o.parseUrl(LocationUrlText(base, location)).Some? ==>
      r == Success(PointNames(SelectDocument(ObjRef, o.fetch(o.parseUrl(LocationUrlText(base, location)).value))))
  {
    match FetchSelect(LocationUrlText(base, location), ObjRef, o)
    case Failure(e) => Failure(e)
    case Success(nodes) => Success(PointNames(nodes))
  }

  /** `getPointURLs(location)`: the same fetch as `PointNamesAt`, each name
      turned into its feed URL. */
  function PointUrlsAt<U, T, V>(base: string, location: string, o: Oracles<U, T, V>): (r: Result<seq<U>, ObixError>)
    ensures o.parseUrl(LocationUrlText(base, location)).None? <==> r == Failure(MalformedUrl(LocationUrlText(base, location)))
    ensures r.Success? ==> |r.value| <= |PointNamesAt(base, location, o).value|
    ensures o.parseUrl(LocationUrlText(base, location)).Some? && o.fetch(o.parseUrl(LocationUrlText(base, location)).value).None? ==> r == Success([])
    ensures o.parseUrl(LocationUrlText(base, location)).Some? ==>
      r == Success(PointUrls(base, SelectDocument(ObjRef, o.fetch(o.parseUrl(LocationUrlText(base, location)).value)), o.parseUrl))
  {
    match FetchSelect(LocationUrlText(base, location), ObjRef, o)
    case Failure(e) => Failure(e)
    case Success(nodes) => Success(PointUrls(base, nodes, o.parseUrl))
  }

  /** The outcome of reading one field of a record. */
  datatype Reading<X> = Missing | Malformed(error: ObixError) | Read(value: X)

  /** `getDateValue`: the first `abstime` below the record supplies the text
      of its `val` attribute (empty when absent) to the ISO parser; without
      any `abstime` the record is stamped with the clock. Never `Missing`. */
  function DateValue<U, T, V>(record: Node, i: nat, o: Oracles<U, T, V>): (r: Reading<T>)
    ensures !r.Missing?
    ensures FirstByTagName(record, TimestampTag).None? ==> r == Read(o.clock(i))
    ensures FirstByTagName(record, TimestampTag).Some? ==>
      exists j: nat :: IsFirstNamed(record, TimestampTag, j)
        && var text := AttributeOrEmpty(Descendants(record)[j], ValueAttr);
           match o.parseTime(text)
           case None => r == Malformed(MalformedTimestamp(text))
           case Some(t) => r == Read(t)
  {
    match FirstByTagName(record, TimestampTag)
    case None => Read(o.clock(i))
    case Some(stamp) =>
      var text := AttributeOrEmpty(stamp, ValueAttr);
      match o.parseTime(text)
      case None => Malformed(MalformedTimestamp(text))
      case Some(t) => Read(t)
  }

  /** `getDoubleValue`: the first `real` below the record supplies the text
      of its `val` attribute (empty when absent) to `Double.valueOf`; with no
      `real` the read fails with a NullPointerException, reported as `Missing`. */
  function DoubleValue<U, T, V>(record: Node, o: Oracles<U, T, V>): (r: Reading<V>)
    ensures r.Missing? <==> forall j :: 0 <= j < |Descendants(record)| ==> !IsElementNamed(Descendants(record)[j], DoubleValueTag)
    ensures !r.Missing? ==>
      exists j: nat :: IsFirstNamed(record, DoubleValueTag, j)
        && var text := AttributeOrEmpty(Descendants(record)[j], ValueAttr);
           match o.parseDouble(text)
           case None => r == Malformed(MalformedNumber(text))
           case Some(v) => r == Read(v)
  {
    match FirstByTagName(record, DoubleValueTag)
    case None => Missing
    case Some(value) =>
      var text := AttributeOrEmpty(value, ValueAttr);
      match o.parseDouble(text)
      case None => Malformed(MalformedNumber(text))
      case Some(v) => Read(v)
  }

  /** What one loop iteration does with a record. */
  datatype Step<T, V> = Keep(time: T, value: V) | Skip | Abort(error: ObixError)

  /** One iteration of the record loop. The timestamp is read first, so its
      failure aborts even a record without a value; a missing value (the
      caught NullPointerException) only skips the record; a malformed number
      is not caught and aborts. */
  function DecodeRecord<U, T, V>(record: Node, i: nat, o: Oracles<U, T, V>): (r: Step<T, V>)
    ensures DateValue(record, i, o).Malformed? ==> r == Abort(DateValue(record, i, o).error)
    ensures r.Skip? <==> DateValue(record, i, o).Read? && DoubleValue(record, o).Missing?
    ensures r.Keep? <==> DateValue(record, i, o).Read? && DoubleValue(record, o).Read?
    ensures r.Keep? ==> r.time == DateValue(record, i, o).value && r.value == DoubleValue(record, o).value
    ensures DateValue(record, i, o).Read? && DoubleValue(record, o).Malformed? ==> r == Abort(DoubleValue(record, o).error)
  {
    match DateValue(record, i, o)
    case Malformed(e) => Abort(e)
    case Read(t) =>
      match DoubleValue(record, o)
      case Missing => Skip
      case Malformed(e) => Abort(e)
      case Read(v) => Keep(t, v)
  }

  /** The loop step of every record, in order. */
  function Steps<U, T, V>(records: seq<Node>, o: Oracles<U, T, V>): (steps: seq<Step<T, V>>)
    ensures |steps| == |records|
    ensures forall i :: 0 <= i < |records| ==> steps[i] == DecodeRecord(records[i], i, o)
  {
    seq(|records|, i requires 0 <= i < |records| => DecodeRecord(records[i], i, o))
  }

  /** The (timestamp, value) pairs of the kept steps, in order. */
  function KeptPairs<T, V>(steps: seq<Step<T, V>>): (ps: seq<(T, V)>)
    ensures |ps| <= |steps|
  {
    if |steps| == 0 then []
    else
      var last := steps[|steps| - 1];
      KeptPairs(steps[..|steps| - 1]) + (if last.Keep? then [(last.time, last.value)] else [])
  }

  /** The error of the first aborting step, if any. */
  function FirstAbort<T, V>(steps: seq<Step<T, V>>): Option<ObixError> {
    if |steps| == 0 then None
    else if FirstAbort(steps[..|steps| - 1]).Some? then FirstAbort(steps[..|steps| - 1])
    else
      var last := steps[|steps| - 1];
      if last.Abort? then Some(last.error) else None
  }

  /** What the record loop is meant to produce: the first abort's error if a
      record aborts, otherwise the kept pairs put in order into a LinkedHashMap. */
  function Expected<T(==,!new), V>(steps: seq<Step<T, V>>): Result<LinkedMap<T, V>, ObixError> {
    match FirstAbort(steps)
    case Some(e) => Failure(e)
    case None => Success(FromPairs(KeptPairs(steps)))
  }

  /** Once a step has aborted, later steps do not change the verdict. */
  lemma {:induction false} FirstAbortStays<T, V>(steps: seq<Step<T, V>>, i: nat, n: nat)
    requires i <= n <= |steps|
    requires FirstAbort(steps[..i]).Some?
    ensures FirstAbort(steps[..n]) == FirstAbort(steps[..i])
    decreases n - i
  {
    if i < n {
      FirstAbortStays(steps, i, n - 1);
      assert steps[..n][..n - 1] == steps[..n - 1];
    }
  }

  lemma FirstAbortNext<T, V>(steps: seq<Step<T, V>>, i: nat)
    requires i < |steps|
    requires FirstAbort(steps[..i]).None?
    ensures FirstAbort(steps[..i + 1]) == if steps[i].Abort? then Some(steps[i].error) else None
  {
    assert steps[..i + 1][..i] == steps[..i];
  }

  lemma KeptPairsNext<T, V>(steps: seq<Step<T, V>>, i: nat)
    requires i < |steps|
    ensures KeptPairs(steps[..i + 1]) ==
      KeptPairs(steps[..i]) + if steps[i].Keep? then [(steps[i].time, steps[i].value)] else []
  {
    assert steps[..i + 1][..i] == steps[..i];
  }

  /** An abort after a clean prefix is the verdict of the whole run. */
  lemma AbortDecides<T(!new), V>(steps: seq<Step<T, V>>, i: nat)
    requires i < |steps| && FirstAbort(steps[..i]).None? && steps[i].Abort?
    ensures Expected(steps) == Failure(steps[i].error)
  {
    FirstAbortNext(steps, i);
    FirstAbortStays(steps, i + 1, |steps|);
    assert steps[..|steps|] == steps;
  }

  /** The series `getHistoryValues` builds from the selected records. */
  function HistorySeries<U, T(==,!new), V>(records: seq<Node>, o: Oracles<U, T, V>): Result<LinkedMap<T, V>, ObixError> {
    Expected(Steps(records, o))
  }

  /** The record loop of `getHistoryValues`, statement by statement: an empty
      `LinkedHashMap`, one `put` per kept record, nothing for a skipped one,
      and the first abort leaves the loop with its error. It computes the
      reference series. */
  method RecordLoop<U, T(==,!new), V>(records: seq<Node>, o: Oracles<U, T, V>) returns (r: Result<LinkedMap<T, V>, ObixError>)
    ensures r == HistorySeries(records, o)
  {
    ghost var steps := Steps(records, o);
    var m: LinkedMap<T, V> := Empty();
    var i := 0;
    assert steps[..0] == [];
    while i < |records|
      invariant i <= |records|
      invariant FirstAbort(steps[..i]).None?
      invariant m == FromPairs(KeptPairs(steps[..i]))
    {
      var step := DecodeRecord(records[i], i, o);
      FirstAbortNext(steps, i);
      KeptPairsNext(steps, i);
      if step.Abort? {
        AbortDecides(steps, i);
        return Failure(step.error);
      }
      if step.Keep? {
        FromPairsSnoc(KeptPairs(steps[..i]), step.time, step.value);
        m := Put(m, step.time, step.value);
      } else {
        assert KeptPairs(steps[..i]) + [] == KeptPairs(steps[..i]);
      }
      i := i + 1;
    }
    assert steps[..i] == steps;
    r := Success(m);
  }

  /** `getHistoryValues(location, pointName, query)`: fetch the request URL
      and build the series from its `//list/obj` records. */
  function HistoryValuesFor<U, T(==,!new), V>(base: string, location: string, pointName: string, query: string, o: Oracles<U, T, V>): (r: Result<LinkedMap<T, V>, ObixError>)
    ensures o.parseUrl(HistoryRequestText(base, location, pointName, query)).None? ==>
      r == Failure(MalformedUrl(HistoryRequestText(base, location, pointName, query)))
    ensures o.parseUrl(HistoryRequestText(base, location, pointName, query)).Some? ==>
      r == Expected(Steps(SelectDocument(ListObj, o.fetch(o.parseUrl(HistoryRequestText(base, location, pointName, query)).value)), o))
  {
    match FetchSelect(HistoryRequestText(base, location, pointName, query), ListObj, o)
    case Failure(e) => Failure(e)
    case Success(records) => HistorySeries(records, o)
  }

  /** `getHistoryValues(location, historyName, start, end, limit)`: the query
      string is built with the parameters in the fixed order start, end, limit. */
  function HistoryValues<U, T(==,!new), V>(base: string, location: string, historyName: string, start: T, end: T, limit: Int32, o: Oracles<U, T, V>): (r: Result<LinkedMap<T, V>, ObixError>)
    ensures var request := PointUrlText(base, location + historyName) + QueryText(o.formatTime(start), o.formatTime(end), limit);
      && (o.parseUrl(request).None? ==> r == Failure(MalformedUrl(request)))
      && (o.parseUrl(request).Some? ==> r == HistorySeries(SelectDocument(ListObj, o.fetch(o.parseUrl(request).value)), o))
  {
    HistoryRequestExtendsPointUrl(base, location, historyName, QueryText(o.formatTime(start), o.formatTime(end), limit));
    HistoryValuesFor(base, location, historyName, QueryText(o.formatTime(start), o.formatTime(end), limit), o)
  }

  /** No step aborts exactly when `FirstAbort` finds none. */
  lemma {:induction false} FirstAbortNone<T, V>(steps: seq<Step<T, V>>)
    ensures FirstAbort(steps).None? <==> forall i :: 0 <= i < |steps| ==> !steps[i].Abort?
  {
    if |steps| > 0 {
      var front := steps[..|steps| - 1];
      FirstAbortNone(front);
      assert forall i :: 0 <= i < |front| ==> front[i] == steps[i];
    }
  }

  /** An abort is the error of the earliest aborting step. */
  lemma {:induction false} FirstAbortEarliest<T, V>(steps: seq<Step<T, V>>) returns (i: nat)
    requires FirstAbort(steps).Some?
    ensures i < |steps| && steps[i] == Abort(FirstAbort(steps).value)
    ensures forall j :: 0 <= j < i ==> !steps[j].Abort?
  {
    var front := steps[..|steps| - 1];
    assert forall j :: 0 <= j < |front| ==> front[j] == steps[j];
    if FirstAbort(front).Some? {
      i := FirstAbortEarliest(front);
    } else {
      FirstAbortNone(front);
      i := |steps| - 1;
    }
  }

  /** A timestamp is a key of the kept pairs exactly when some step keeps a
      value under it. */
  lemma {:induction false} KeptTimes<T(!new), V>(steps: seq<Step<T, V>>, t: T)
    ensures t in KeysOf(KeptPairs(steps)) <==> exists i :: 0 <= i < |steps| && steps[i].Keep? && steps[i].time == t
  {
    if |steps| > 0 {
      var front := steps[..|steps| - 1];
      var last := steps[|steps| - 1];
      KeptTimes(front, t);
      assert forall j :: 0 <= j < |front| ==> front[j] == steps[j];
      var extra: seq<(T, V)> := if last.Keep? then [(last.time, last.value)] else [];
      KeysOfAppend(KeptPairs(front), extra);
      if exists i :: 0 <= i < |steps| && steps[i].Keep? && steps[i].time == t {
        var i :| 0 <= i < |steps| && steps[i].Keep? && steps[i].time == t;
        if i == |steps| - 1 {
          assert KeysOf(extra) == [t];
        } else {
          assert front[i].Keep? && front[i].time == t;
        }
      }
    }
  }

  /** Number of skipped steps (records without a value). */
  function SkipCount<T, V>(steps: seq<Step<T, V>>): nat {
    if |steps| == 0 then 0
    else SkipCount(steps[..|steps| - 1]) + if steps[|steps| - 1].Skip? then 1 else 0
  }

  /** Without an abort, every step either keeps or skips. */
  lemma {:induction false} KeptPlusSkipped<T, V>(steps: seq<Step<T, V>>)
    requires FirstAbort(steps).None?
    ensures |KeptPairs(steps)| + SkipCount(steps) == |steps|
  {
    if |steps| > 0 {
      KeptPlusSkipped(steps[..|steps| - 1]);
    }
  }

  /** The series fails exactly when some record aborts, and then with the
      error of the earliest aborting record. */
  lemma SeriesFailure<T(!new), V>(steps: seq<Step<T, V>>)
    ensures Expected(steps).Failure? <==> exists i :: 0 <= i < |steps| && steps[i].Abort?
    ensures Expected(steps).Failure? ==>
      exists i :: 0 <= i < |steps| && steps[i] == Abort(Expected(steps).error)
        && forall j :: 0 <= j < i ==> !steps[j].Abort?
  {
    FirstAbortNone(steps);
    if FirstAbort(steps).Some? {
      var i := FirstAbortEarliest(steps);
    }
  }

  /** A successful series is a valid ordered map with one key per timestamp
      of a kept record, and no other key. */
  lemma SeriesKeys<T(!new), V>(steps: seq<Step<T, V>>, t: T)
    requires Expected(steps).Success?
    ensures Valid(Expected(steps).value)
    ensures t in Expected(steps).value.keys <==> exists i :: 0 <= i < |steps| && steps[i].Keep? && steps[i].time == t
  {
    FromPairsKeys(KeptPairs(steps));
    KeptTimes(steps, t);
  }

  /** In a successful series the keys are ordered by the record that FIRST
      carried them: of two keys, the earlier one was put earlier. */
  lemma SeriesOrderAt<T(!new), V>(steps: seq<Step<T, V>>, x: nat, y: nat)
    requires Expected(steps).Success? && x < y < |Expected(steps).value.keys|
    ensures var ks := KeysOf(KeptPairs(steps));
      var m := Expected(steps).value;
      m.keys[x] in ks && m.keys[y] in ks && FirstIndex(ks, m.keys[x]) < FirstIndex(ks, m.keys[y])
  {
    FromPairsOrderAt(KeptPairs(steps), x, y);
  }

  /** Each value of a successful series is that of the LAST kept record with
      that timestamp (a later record overwrites, as `LinkedHashMap.put` does). */
  lemma SeriesValues<T(!new), V>(steps: seq<Step<T, V>>, t: T)
    requires Expected(steps).Success? && t in Expected(steps).value.values
    ensures var ps := KeptPairs(steps);
      t in KeysOf(ps) && Expected(steps).value.values[t] == ps[LastIndex(KeysOf(ps), t)].1
  {
    FromPairsValues(KeptPairs(steps));
  }

  /** N records of which M lack a value give N - M entries, when no record
      aborts and the kept records' timestamps are pairwise different. */
  lemma SeriesSize<T(!new), V>(steps: seq<Step<T, V>>)
    requires forall i :: 0 <= i < |steps| ==> !steps[i].Abort?
    requires Distinct(KeysOf(KeptPairs(steps)))
    ensures Expected(steps).Success?
    ensures |Expected(steps).value.keys| == |steps| - SkipCount(steps)
  {
    FirstAbortNone(steps);
    KeptPlusSkipped(steps);
    FromPairsDistinctSize(KeptPairs(steps));
  }

  /** The request `getHistoryValues` sends is the feed URL of
      `location + historyName` followed by a query that reads back as start,
      end and limit, in that order. */
  lemma HistoryRequestQuery<U, T, V>(base: string, location: string, historyName: string, start: T, end: T, limit: Int32, o: Oracles<U, T, V>)
    requires '&' !in o.formatTime(start) && '&' !in o.formatTime(end)
    ensures var q := QueryText(o.formatTime(start), o.formatTime(end), limit);
      && HistoryRequestText(base, location, historyName, q) == PointUrlText(base, location + historyName) + q
      && ParseQuery(q) == Some([(StartKey, o.formatTime(start)), (EndKey, o.formatTime(end)), (LimitKey, IntText(limit))])
      && ParseInt(IntText(limit)) == Some(limit)
  {
    var q := QueryText(o.formatTime(start), o.formatTime(end), limit);
    HistoryRequestExtendsPointUrl(base, location, historyName, q);
    QueryRoundTrip(o.formatTime(start), o.formatTime(end), limit);
  }
}
