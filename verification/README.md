# oBIX history client — a Dafny model

`Obix` is a small client for the oBIX REST interface (OASIS Open Building
Information Exchange). It lists the history locations a server publishes, lists
the history points under a location, and reads one point's history into an
ordered time series. The client's own logic is:

- href normalisation with `StringUtils.strip(href, "/")`;
- URL building by string concatenation under `base + "/obix/histories/"`;
- the node selections `//obj/ref` and `//list/obj`, and `getElementsByTagName`;
- folding the selected records into a `LinkedHashMap<DateTime, Double>`, with
  a different failure policy per field.

This project models that logic with immutable data and pure functions:

| file | module | content |
|---|---|---|
| `wrappers.dfy` | `Wrappers` | `Option`, `Result` |
| `sequences.dfy` | `Sequences` | subsequences; `FilterMap` (the "convert, keep what converts" loop) with its enumeration lemma |
| `text.dfy` | `Text` | `Strip` (slash trimming), decimal rendering and parsing of a 32-bit `int`, splitting |
| `xml.dfy` | `Xml` | the parsed document as a `Node` tree; `//parent/child` selection; `getElementsByTagName` |
| `linked_map.dfy` | `LinkedMap` | the insertion-ordered map: a key sequence plus a map |
| `urls.dfy` | `Urls` | the URL texts the client concatenates; the history query string and a reader for it |
| `obix.dfy` | `Obix` | the client operations, the per-record policy and the record loop |

The collaborators the client calls into are parameters, gathered in one
`Oracles` value:

- `new URL(text)` is `parseUrl` (absent when it throws `MalformedURLException`).
- The authenticated HTTP GET plus XML parse is `fetch` (absent when `httpGet` logs a failure and returns a null document).
- Joda's ISO-8601 parser is `parseTime`, and `DateTime.toString()` is `formatTime`.
- `Double.valueOf` is `parseDouble`.
- `new DateTime()` is `clock(i)`, the clock read while decoding record `i`.

URLs, timestamps and numbers are abstract types `U`, `T` and `V`. The base URL
is its text, as it appears in the concatenations.

The failure policy is the one in the code:

- A `MalformedURLException` from the request URL escapes the operation (`MalformedUrl`).
- In the record loop only `NullPointerException` is caught. A record without a `real` descendant is therefore skipped.
- A timestamp that does not parse (`MalformedTimestamp`) escapes and aborts the whole call. So does a number that does not parse (`MalformedNumber`, an uncaught `NumberFormatException`).
- The timestamp is read before the value, so a bad timestamp aborts even a record without a value.
- An `abstime` or `real` without a `val` attribute yields `""` (DOM `getAttribute`), which then fails to parse.
- A record without `abstime` is stamped with the clock.
- A fetch failure gives a null document. XPath evaluates a null document as an empty one, so the operation returns an empty result and no error.

Two small functions are plain definitions of DOM calls and carry no
property of their own: `Xml.AttributeOrEmpty` is `Element.getAttribute`
(the empty string for an absent attribute), and `Obix.HrefOf` is
`getAttributes()` followed by `getNamedItem("href")` (absent for a text node
or a missing attribute). Their meaning shows up in the contracts of the
members that use them: `Obix.DateValue`, `Obix.DoubleValue`,
`Obix.PointNamesEnumerate` and `Obix.LocationUrlsEnumerate`.

The `//parent/child` selection is defined twice as well. `Xml.Select` walks
the tree. `Xml.ParentTagged` lists the descendants in document order, each
paired with its parent's tag. `Xml.SelectByParentTag` proves the walk equal to
filtering that list, so each qualifying position is selected once, and
identical subtrees at two positions are selected twice.

The record loop appears twice. `Obix.RecordLoop` follows the Java loop statement by statement. `Obix.HistorySeries` is its reference definition: the error of the earliest aborting record, otherwise the kept (timestamp, value) pairs put in order into an empty map. The loop is proved to return the reference. The operations, being functions, use the reference. The series properties are stated over the records' steps, where step `i` is `DecodeRecord` of record `i` (`Obix.Steps`).

## Model

| member | source | states |
|---|---|---|
| Text.Strip | src/main/java/org/foundobjx/gaslamp/Obix.java:100 | the stripped href neither starts nor ends with `/`; it is a contiguous slice of the input with only slashes before and after it (interior untouched); it is empty exactly when the input is all slashes |
| Text.StripUnique | src/main/java/org/foundobjx/gaslamp/Obix.java:100 | any slice of the href with only slashes around it and no slash at its edges IS the stripped href, so the trimming is fully determined |
| Text.StripIdempotent | src/main/java/org/foundobjx/gaslamp/Obix.java:100 | stripping an already stripped name changes nothing |
| Xml.FirstByTagName | src/main/java/org/foundobjx/gaslamp/Obix.java:261 | `getElementsByTagName(tag).item(0)` is null exactly when no descendant element has that tag, otherwise it is the first such descendant in document order |
| Xml.SelectMembers | src/main/java/org/foundobjx/gaslamp/Obix.java:44-45 | a node is selected by `//parent/child` exactly when it is an element named `child` and a child of some element named `parent` in the tree (membership only; how often it is selected is `Xml.SelectEnumerates`) |
| Xml.SelectInDocumentOrder | src/main/java/org/foundobjx/gaslamp/Obix.java:44-45 | the selected nodes appear in document order: they form a subsequence of the root's descendants |
| Xml.ParentTaggedNodes | src/main/java/org/foundobjx/gaslamp/Obix.java:44-45 | the nodes of the parent-tagged list are the root's descendants, position by position |
| Xml.ParentTaggedParents | src/main/java/org/foundobjx/gaslamp/Obix.java:44-45 | the tag paired with each descendant is the tag of an element in the tree that has that descendant as a child |
| Xml.SelectByParentTag | src/main/java/org/foundobjx/gaslamp/Obix.java:44-45 | `//parent/child` equals the filter "parent tag is `parent` and node is an element named `child`" over the parent-tagged descendants |
| Xml.SelectEnumerates | src/main/java/org/foundobjx/gaslamp/Obix.java:44-45 | the selection lists the descendants at increasing positions, and a position is listed exactly when its node is an element named `child` whose parent is named `parent`: each qualifying node once per occurrence |
| Obix.SelectDocument | src/main/java/org/foundobjx/gaslamp/Obix.java:87-89 | a null document selects nothing; otherwise the selection is the filter of the parent-tagged descendants by parent tag and child tag, a document-order subsequence of the descendants, every node with the child tag |
| Obix.PointNames | src/main/java/org/foundobjx/gaslamp/Obix.java:92-105 | no more names than nodes, and no name starts or ends with `/` |
| Obix.PointNamesEnumerate | src/main/java/org/foundobjx/gaslamp/Obix.java:92-105 | the k-th name is the stripped href of the k-th node that has one: positions increase and every node with an href contributes exactly one name |
| Obix.PointUrlsEnumerate | src/main/java/org/foundobjx/gaslamp/Obix.java:107-117 | each URL parses from `base + "/obix/histories/" + name + "/"` for a point name (no location), in name order, and every name whose URL parses contributes one; the others are dropped |
| Obix.LocationUrlsEnumerate | src/main/java/org/foundobjx/gaslamp/Obix.java:170-181 | each location URL parses from `base + "/obix/histories/"` plus the raw, unstripped href of a reference node, in node order; nodes without href or with a malformed URL are dropped and all others kept |
| Obix.FetchSelect | src/main/java/org/foundobjx/gaslamp/Obix.java:87-89 | a malformed request URL escapes as `MalformedUrl` with its text, before any fetch; otherwise the result is the selection of `path` on the fetched document (empty for a null document), every node with the child tag |
| Obix.Locations | src/main/java/org/foundobjx/gaslamp/Obix.java:164-183 | `getLocations` fails exactly when the history root URL is malformed; otherwise it returns the location URLs of the `//obj/ref` nodes of the fetched root listing (see `Obix.LocationUrlsEnumerate`); a null document gives an empty list |
| Obix.PointNamesAt | src/main/java/org/foundobjx/gaslamp/Obix.java:69-72 | fails, with `MalformedUrl` of the location URL text, exactly when that URL is malformed; otherwise returns the point names of the `//obj/ref` nodes of the fetched location listing (see `Obix.PointNamesEnumerate`), all stripped; a null document gives no names |
| Obix.PointUrlsAt | src/main/java/org/foundobjx/gaslamp/Obix.java:80-83 | fails, with `MalformedUrl` of the location URL text, exactly when that URL is malformed; otherwise returns the feed URLs of the point names of the `//obj/ref` nodes of the fetched location listing (see `Obix.PointUrlsEnumerate`), at most one per name; a null document gives no URLs |
| Obix.DateValue | src/main/java/org/foundobjx/gaslamp/Obix.java:271-282 | never missing; without `abstime` the clock's time; otherwise the parse of the `val` of the FIRST `abstime` descendant, a parse failure being `MalformedTimestamp` of that text |
| Obix.DoubleValue | src/main/java/org/foundobjx/gaslamp/Obix.java:260-263 | missing exactly when no `real` descendant exists; otherwise the parse of the `val` of the FIRST `real` descendant, a parse failure being `MalformedNumber` of that text |
| Obix.DecodeRecord | src/main/java/org/foundobjx/gaslamp/Obix.java:146-151 | a bad timestamp aborts first; the record is skipped exactly when the timestamp reads and the value is missing; it is kept, with the read time and value, exactly when both read; when the timestamp reads and the number does not, the abort carries `MalformedNumber` of that number's text |
| Obix.RecordLoop | src/main/java/org/foundobjx/gaslamp/Obix.java:140-153 | the record loop, run statement by statement from an empty `LinkedHashMap` (one `put` per kept record, nothing for a skipped one, the first abort leaves with its error), returns the reference series `HistorySeries`: the first abort's error, or the kept (timestamp, value) pairs put in order |
| Obix.SeriesFailure | src/main/java/org/foundobjx/gaslamp/Obix.java:145-152 | over the records' steps (step i is `DecodeRecord` of record i): the series fails exactly when some record aborts, and then with the error of the earliest aborting record |
| Obix.SeriesKeys | src/main/java/org/foundobjx/gaslamp/Obix.java:140-148 | a successful series is a valid ordered map whose keys are exactly the timestamps of the kept records |
| Obix.SeriesOrderAt | src/main/java/org/foundobjx/gaslamp/Obix.java:140-148 | of two keys of a successful series, the earlier one was first put by an earlier kept record: keys keep first-insertion order |
| Obix.SeriesValues | src/main/java/org/foundobjx/gaslamp/Obix.java:140-148 | each value of a successful series is that of the last kept record with that timestamp, so a later equal timestamp overwrites in place |
| Obix.SeriesSize | src/main/java/org/foundobjx/gaslamp/Obix.java:145-151 | N records of which M lack a value, none aborting and with distinct timestamps, give N − M entries |
| Obix.HistoryValuesFor | src/main/java/org/foundobjx/gaslamp/Obix.java:138-154 | a malformed request URL escapes as `MalformedUrl` with its text; otherwise the result is the reference series of the `//list/obj` records of the fetched document |
| Obix.HistoryValues | src/main/java/org/foundobjx/gaslamp/Obix.java:131-136 | the public overload requests the feed URL of `location + historyName` followed by `~historyQuery?start=…&end=…&limit=…`; a malformed request escapes as `MalformedUrl` of that text, otherwise the result is the series of the fetched `//list/obj` records |
| Obix.HistoryRequestQuery | src/main/java/org/foundobjx/gaslamp/Obix.java:134-142 | the request is the feed URL of `location + historyName` followed by a query that reads back as start, end and limit in that order, the limit as itself |
| Urls.QueryRoundTrip | src/main/java/org/foundobjx/gaslamp/Obix.java:134 | the query string parses back to the three parameters `start`, `end`, `limit` in that order, with the timestamps verbatim and the limit's decimal text parsing back to the limit |
| Urls.PointUrlRoundTrip | src/main/java/org/foundobjx/gaslamp/Obix.java:111 | the point name can be read back from its feed URL |
| Urls.PointUrlInjective | src/main/java/org/foundobjx/gaslamp/Obix.java:111 | different point names never share a feed URL |
| Urls.LocationOfAbsoluteHref | src/main/java/org/foundobjx/gaslamp/Obix.java:174 | the location URL text is the history root followed by the href exactly as written, so an absolute-path href repeats the root |
| Urls.HistoryRequestExtendsPointUrl | src/main/java/org/foundobjx/gaslamp/Obix.java:142 | the history request is the feed URL of `location + point` followed by the query, equally the location URL followed by `point + "/" + query` |
| Text.IntTextRoundTrip | src/main/java/org/foundobjx/gaslamp/Obix.java:134 | the decimal text of a 32-bit `int` limit parses back to the same value |
| LinkedMap.Put | src/main/java/org/foundobjx/gaslamp/Obix.java:148 | `put` keeps the keys distinct and in step with the map, maps the key to the new value, leaves other keys' values alone, keeps an existing key in place and appends a new one |
| LinkedMap.FromPairsKeys | src/main/java/org/foundobjx/gaslamp/Obix.java:140-148 | the keys of the map built from a pair list are exactly the keys of the list |
| LinkedMap.FromPairsOrderAt | src/main/java/org/foundobjx/gaslamp/Obix.java:140-148 | of any two keys of the map built from a pair list, the earlier one first occurs earlier in the list: keys appear in first-insertion order |
| LinkedMap.FromPairsValues | src/main/java/org/foundobjx/gaslamp/Obix.java:140-148 | each key's value comes from the last pair with that key |
| LinkedMap.FromPairsDistinctSize | src/main/java/org/foundobjx/gaslamp/Obix.java:140-148 | pairs with distinct keys give one entry per pair |
| LinkedMap.FromPairsSize | src/main/java/org/foundobjx/gaslamp/Obix.java:140-148 | never more entries than pairs |

## Left out

- `httpGet`, `Client`, `RequestBuilder`, `RequestVO`: network I/O, the 20-second timeout, stream closing and authentication headers. They are the `fetch` oracle. `Client.java`, `RequestBuilder.java` and `RequestVO.java` are not part of this model.
- `getAuth`: the Base64 encoding of `user:password` only feeds the request headers.
- `getDocument` and `EmptyResolve`: JAXP parser configuration. The model starts from the parsed tree.
- `nodeToString`: XSLT serialisation used only for logging.
- Logging (SLF4J): the messages for malformed URLs and skipped records have no effect on results.
- Joda `DateTime` parsing and formatting, `Double.valueOf`, `new URL(...)` and the clock are oracles. URL normalisation inside `URL` (and `URL.toString()` of the base) is not modelled; the base is its text.
- XML namespaces, comments and processing instructions: the tree has elements and text only.
- Fetch failures are not reported as errors. `httpGet` logs the failure and returns a null document, which XPath evaluates as an empty one, so a failed fetch gives an empty result. The model does the same.
- `getLocations` reads `getAttributes()` without the null check `getPointNames` has. The nodes it reads come from `//obj/ref` and are always elements, so both go through `Obix.HrefOf`, with the same result.
- `getLocations` does not normalise hrefs: Obix.java:174 appends the raw href to the history root. So an absolute-path href such as `/obix/histories/Building1/` under `http://h` yields `http://h/obix/histories//obix/histories/Building1/` (`Urls.LocationOfAbsoluteHref`).
- Obix.DateValue: `new DateTime()` is modelled as a clock indexed by the record's position, so two records without `abstime` may or may not share a timestamp, as in the code. The model does not promise that they differ.
- Urls.QueryRoundTrip: requires that the rendered timestamps contain no `&`. The client does not percent-encode them, and ISO-8601 text never contains `&`.
- `int` arithmetic: the limit is a 32-bit `Int32`. It is only rendered as text, so no wrap-around arises.
