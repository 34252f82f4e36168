# json-unix-time in Dafny

json-unix-time is a desktop tool. You paste a JSON document into it, and it
lists every integer in the document that lies within a range of years,
taken as a Unix timestamp in seconds. Each hit is shown with its JSON path,
and the list is sorted by timestamp. Each row also shows the hit's offset
from an anchor timestamp, as `±HH:MM:SS`. The file src/tree.rs also holds a
tree view of the document. It opens the containers down to a chosen path and
highlights the number at that path. The application's `update` in
src/app.rs never calls it, so the model treats it as a view on its own.

This project models the part of the tool that has logic and proves
properties about it:

- `JsonPaths` (json_path.dfy): the path model. A path is a sequence of
  parts, each a `Field(name)` or an `Index(i)`. The model covers appending a
  part, the text rendering (`a.b[3].c`; a field is written bare only at
  position 0), and the prefix relation. The rendering loop is a method,
  proved against the function `Render`.
- `JsonCrawl` (json_crawl.dfy): the recursive crawl. The crawl walks a
  JSON value. It appends `(path, n)` to an output vector for every number
  that is an i64 and that the predicate accepts. The recursion is a method
  that pushes onto a `MatchVecs.MatchVec`. It is proved equal to
  the pre-order specification `Crawl`. `Crawl` is then proved sound,
  complete and free of duplicates against a relational account of "this
  path reaches this integer".
- `MatchVecs` (match_vec.dfy): the output vector, a class whose `seq` field
  its methods update in place. It has `Push` and the sort by timestamp. The
  sort is specified as a stable sort: sorted, and each timestamp's matches
  keep their relative order.
- `Datetime` (datetime.dfy): `year_to_ts`, the Unix time of 1 January
  00:00:00 UTC of a year, using the "Seconds Since the Epoch" formula of
  POSIX.1-2017 Base Definitions section 4.16 with floor division.
- `App` (app.rs in the source): the year window predicate, the
  crawl-then-sort pipeline of the central panel, and the relative offset
  column.
- `Tree` (tree.rs in the source): the default-open and highlight decision of
  each node of the tree view, which the application does not call.
- `Decimal` and `Wrappers`: decimal digit strings and `Option`.

## Model

| member | source | states |
|---|---|---|
| JsonPaths.NewPath | src/json_crawl.rs:14-16 | the new path has no parts and renders as the empty string |
| JsonPaths.Append | src/json_crawl.rs:17-21 | the result is the original parts followed by exactly the new part; the original path is left as it was |
| JsonPaths.Piece | src/json_crawl.rs:27-31 | the text of one part at its position; `RenderAppend` states it: `[i]` for an index, the bare name at position 0, `.name` elsewhere |
| JsonPaths.Render | src/json_crawl.rs:23-35 | the text of a path, the pieces of its parts in order; `RenderAppend` and `Format` state it |
| JsonPaths.RenderAppend | src/json_crawl.rs:23-35 | rendering is compositional: appending an index adds `[i]` in decimal, appending a field adds the bare name at the root and `.name` elsewhere |
| JsonPaths.Format | src/json_crawl.rs:23-35 | the string-building loop over the enumerated parts produces exactly `Render(p)` |
| JsonPaths.RenderExamples | src/json_crawl.rs:26-31 | `a.b[3].c` and `[0]` are the renderings of the corresponding paths |
| JsonPaths.RenderNotInjective | src/json_crawl.rs:29-30 | field names are not escaped, so two distinct paths can render to the same text |
| JsonPaths.PrefixOrder | src/tree.rs:18 | the prefix relation used by the tree view is reflexive, antisymmetric and transitive; the root path is a prefix of every path; appending gives a strict extension |
| JsonCrawl.AsI64 | src/json_crawl.rs:43 | a number yields a value exactly when it is an integer within the i64 range, and then it yields that integer |
| JsonCrawl.Crawl | src/json_crawl.rs:37-63 | what `crawl_json` appends, in pre-order; `CrawlSound`, `CrawlComplete` and `CrawlDistinct` state exactly which matches these are: every accepted i64 the value holds, each once, at its path |
| JsonCrawl.CrawlElems | src/json_crawl.rs:49-54 | the matches of the first k array elements, in element order; `ElemsSound` states that each passes the predicate and sits under an index below k |
| JsonCrawl.CrawlFields | src/json_crawl.rs:55-59 | the matches of the first k object members, in member order; `FieldsSound` states that each passes the predicate and sits under one of their keys |
| JsonCrawl.CrawlJson | src/json_crawl.rs:37-63 | after the call the output vector holds its old contents followed by `Crawl(value, path, pred)` |
| JsonCrawl.ScalarsContributeNothing | src/json_crawl.rs:41-61 | null, booleans, strings and numbers that are not i64 add no match |
| JsonCrawl.CrawlSound | src/json_crawl.rs:37-63 | every match satisfies the predicate, and its path extends the starting path by steps that lead to that integer in the value |
| JsonCrawl.CrawlComplete | src/json_crawl.rs:37-63 | every integer that some steps reach and the predicate accepts is reported at the starting path extended by those steps |
| JsonCrawl.CrawlDistinct | src/json_crawl.rs:49-59 | when object keys are distinct, no two matches share a path |
| JsonCrawl.ElemsSound | src/json_crawl.rs:49-54 | matches from the first k array elements sit under an index below k |
| JsonCrawl.FieldsSound | src/json_crawl.rs:55-59 | matches from the first k object members sit under one of their keys |
| JsonCrawl.CrawlExample | src/json_crawl.rs:37-63 | a small document with a year window gives exactly its two in-range integers, in document order, with paths `a` and `b[1]` |
| MatchVecs.MatchVec.constructor | src/app.rs:204 | a new vector is empty |
| MatchVecs.MatchVec.Push | src/json_crawl.rs:45 | pushing adds the match at the end and changes nothing else |
| MatchVecs.MatchVec.SortByTimestamp | src/app.rs:206 | the vector's contents become `SortByTs` of the old contents |
| MatchVecs.InsertByTimestamp | src/app.rs:206 | the scan from the right places the match after every match with a timestamp not larger than its own, as `InsertByTs` does |
| MatchVecs.SortByTsIsStableSort | src/app.rs:206 | the sort is sorted by timestamp, is a permutation, and keeps the relative order of matches with equal timestamps |
| MatchVecs.StableSortUnique | src/app.rs:206 | any result that is sorted by timestamp and keeps each timestamp's matches in input order equals `SortByTs`, so the insertion sort stands for every stable sort |
| MatchVecs.InsertByTsKeepsOrder | src/app.rs:206 | an insertion appends the new match after the others with the same timestamp |
| Datetime.YearToDateTime | src/datetime.rs:3-5 | 1 January 00:00:00 of the year, as broken-down time with the year counted from 1900 |
| Datetime.DaysSinceEpoch | src/datetime.rs:7-11 | the day term of the POSIX formula; `DaysStep` states that it grows by the Gregorian length of each year |
| Datetime.SecondsSinceEpoch | src/datetime.rs:7-11 | the POSIX seconds since the epoch of a broken-down UTC time; `YearToTsDays` and `YearLength` state its value at 1 January |
| Datetime.YearToTs | src/datetime.rs:7-11 | the timestamp is a whole number of days; year 1970 gives 0 |
| Datetime.YearLength | src/datetime.rs:7-11 | consecutive years are 366 days apart for a Gregorian leap year and 365 days apart otherwise |
| Datetime.DaysStep | src/datetime.rs:3-5 | the POSIX day count grows by the length of the Gregorian year |
| Datetime.YearToTsCountsDays | src/datetime.rs:7-11 | the POSIX formula agrees with counting the days of each year from 1970, forwards and backwards |
| Datetime.YearToTsIncreasing | src/datetime.rs:7-11 | the timestamp is strictly increasing in the year |
| App.Window | src/app.rs:172-174 | the year-window predicate; `WindowBounds` and `WindowAcceptsYears` state which timestamps it accepts |
| App.WindowBounds | src/app.rs:172-174 | the predicate accepts ts exactly when `year_to_ts(min_year) <= ts <= year_to_ts(max_year + 1)`, inclusive at both ends |
| App.WindowAcceptsYears | src/app.rs:172-174 | the predicate accepts exactly the instants inside some year from min_year to max_year, plus midnight of 1 January of max_year + 1 |
| App.WindowEnds | src/app.rs:172-173 | the window is non-empty exactly when min_year <= max_year + 1 |
| App.TimestampRows | src/app.rs:202-207 | the table's rows are the crawl of the document from the root path with the year window, sorted stably by timestamp; every row lies inside the window |
| App.RelativeOffset | src/app.rs:131-136 | hours, minutes and seconds decompose `abs(ts - anchor)`, with minutes and seconds below 60; the sign is negative exactly when ts < anchor |
| App.OffsetText | src/app.rs:136-138 | the sign comes first and is `-` exactly for a negative offset; with minutes and seconds below 100, the text is the sign, then the two-digit zero-filled hours, minutes and seconds fields, in that order, separated by `:`; with hours below 100 too it is exactly nine characters long |
| App.ReadOffsetText | src/app.rs:136-138 | reading back the text of any offset with minutes and seconds below 100 gives its signed total in seconds |
| App.OffsetTextRoundTrip | src/app.rs:131-138 | reading the `±HH:MM:SS` text back gives exactly `ts - anchor` |
| App.OffsetTextShape | src/app.rs:136-138 | the text is a sign, at least two hour digits, then `:MM:SS`; equal ts and anchor give `+00:00:00` |
| Decimal.DecimalRoundTrip | src/json_crawl.rs:28 | the decimal text of a natural number reads back as that number |
| Decimal.ZeroPad2 | src/app.rs:138 | zero-padding to width 2 keeps the value; below 10 it is a `0` followed by the single digit, and from 10 up it is the plain decimal text with no added zero |
| Tree.TreeRows | src/tree.rs:20-71 | the nodes the view lays out, in pre-order: there is at least one, and the first is the view's own node, with its name and path; `TreeRule` states the rule each node follows |
| Tree.ElemRows | src/tree.rs:37-53 | the nodes of the first k array elements, labelled by index; `ElemRule` states that each follows the rule and sits under an index below k |
| Tree.FieldRows | src/tree.rs:54-70 | the nodes of the first k object members, labelled by key; `FieldRule` states that each follows the rule and sits under one of their keys |
| Tree.TreeRule | src/tree.rs:20-71 | the first node of a view is at its own path; every node follows the rule (a container is open exactly when its path is a prefix of the target, a number is highlighted exactly when its path equals the target, no other node is open or highlighted); every child lies strictly below the view's path |
| Tree.KindOf | src/tree.rs:20-71 | the kind of node drawn for a value: a container exactly for arrays and objects, a number node exactly for numbers, integer or float |
| Tree.RowLocated | src/tree.rs:20-71 | every node lies at or below the view's path, and its kind is the kind of a value that its steps from the view's path locate in the document |
| Tree.NodesFollowDocument | src/tree.rs:20-71 | for any target, each node of the view is at a value of the document: it opens exactly when that value is an array or object whose path is a prefix of the target, and it is highlighted exactly when that value is a number (integer or float) at the target; null, boolean and string nodes do neither |
| Tree.AllNodesFollowRule | src/tree.rs:27-56 | every node of the view follows the per-node open and highlight rule, stated on the node's kind, which `NodesFollowDocument` ties to the document |
| Tree.NoTargetNoDecisions | src/tree.rs:27-56 | with no path to open, no node is open and nothing is highlighted |
| Tree.TreeDistinct | src/tree.rs:37-70 | when object keys are distinct, every node has a path of its own |
| Tree.CrawlMatchHasNode | src/tree.rs:27-70 | every crawl match appears in the view as a number node at the match's path |
| Tree.CrawlTargetHighlightsOne | src/tree.rs:27-33 | when the target is a crawl match and keys are distinct, exactly one node is highlighted: the number at the target |
| Tree.CrawlTargetOpensPath | src/tree.rs:37-56 | when the target is a crawl match, the open nodes are exactly the containers on the way to it, and every ancestor level has such a container |

## Left out

- The egui user interface: panels, the table layout, copy-on-click labels,
  setting the anchor by right-click, and the drag widgets for the years. The
  window's years and the anchor are parameters.
- Parsing JSON text with serde_json, and its error message. A document is
  given as a `Value`. The order of an object's members is part of that value,
  so the model does not depend on how the map orders keys.
- JSON floats carry no arithmetic. A number that is not an integer is kept
  only as its literal, and the crawl skips it. Integers above the i64 range
  are skipped the same way, which matches `as_i64` returning nothing.
- `ts_to_str`: formatting with a user-supplied strftime string is foreign
  code in chrono.
- The `dbg!` trace in the tree view (src/tree.rs:13-19). The wall-clock
  defaults of the year fields (src/app.rs:34-42), and the fixed default
  anchor and sample document (src/app.rs:43-52).
- Datetime.YearToTs: requires the year to be an i32 and gives the POSIX value
  for every such year. It does not model chrono's narrower year range: its
  `None` result and the `unwrap` panics that follow at src/app.rs:172-173.
- App.Window: `max_year + 1` is not checked for i32 overflow. The
  precondition keeps max_year below the i32 maximum.
- App.RelativeOffset: `ts - anchor` and `abs` are taken on unbounded
  integers. The i64 overflow of the source, possible only at the extremes of
  the range, is not modelled.
- Sorting: the library's stable sort is modelled as an insertion sort. It is
  proved to be a stable sort, and `StableSortUnique` proves that every stable
  sort gives the same result, so only the cost of the sort is not modelled.
- Paths: src/json_crawl.rs:5-11 gives `JsonPath` no `is_prefix_of`, no
  `PartialEq` and no `Debug`. Yet src/tree.rs uses `is_prefix_of` at lines
  18, 39 and 56, `==` at line 29, and `Debug` in the `dbg!` at lines 13-19.
  The source does not define them. The model assumes that both are structural,
  over the sequence of parts: `IsPrefix` and the datatype's `==`. The code
  never orders paths, so no path ordering is modelled.
- The tree view's rows are a pre-order list of every node, including nodes
  inside collapsed headers that egui would not lay out.
- Uniqueness of match paths and of tree nodes is proved only for documents
  whose objects have distinct keys. The source's map type guarantees that;
  the model takes it as a hypothesis.
