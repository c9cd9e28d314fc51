# EmbryoViewer query server, modelled in Dafny

EmbryoViewer's server is a small HTTP server. A browser viewer uses it to look
through time-lapse microscopy frames of embryos ("wells"). It answers three GET
endpoints from one read-only SQLite table `IMAGES(Well, Time, Focal, Image)`:

- `/api/embryos` lists the distinct wells in ascending order.
- `/api/timeline?id=W` lists, for well `W`, each timepoint with its focal
  planes. Only rows with `Time >= 0` and `Focal` in [-100, 100] are used. The
  rows are grouped by time, each group's focals are sorted, and the groups come
  out in time order.
- `/image?id=W&time=T&z=Z` returns the JPEG bytes of one frame, or 404.

Every other path goes to the library's static file serving.

This project models that request logic:

- The table is a sequence of `Frame` values, and the database is either
  `Readable(frames)` or `Broken(message)`.
- Each SQL statement is a function over that sequence that keeps and projects
  the rows its text names (`table.dfy`).
- `handle_timeline` groups rows with two loops. They become two methods with
  loop invariants: `GroupByTime` fills a dictionary from each time to its
  focal values, and `CollectEntries` walks its sorted keys (`timeline.dfy`).
- Python's `sorted` is `Sorting.Sort`. SQLite's BINARY text order is
  `TextOrder.Less`.
- The query string is what `parse_qs` produces: each key maps to a non-empty
  list of values. A parameter counts as present when Python treats it as true,
  so it is neither missing nor empty (`params.dfy`).
- The handlers and `do_GET` are in `server.dfy`. The documented example
  requests are in `scenarios.dfy`.

What is proved:

- The timeline has strictly ascending times, so each time appears once.
- Each entry's focals are sorted and are exactly the multiset of input focals at
  that time. A focal value appears under a time once for every frame of the
  well at that time and focal plane: duplicates pass through, and nothing is
  dropped or invented.
- No entry is empty, and the set of times is exactly the set of input times.
- The result depends only on the multiset of rows.
- Every listed frame belongs to the requested well and lies in the query's
  band. Every such frame is listed.
- The well list is strictly ascending and holds exactly the table's wells. It is
  the only list with both properties.
- A missing parameter gives the fixed 400 message before the database is used.
- An image is found (200, with exactly the matching frame's bytes) exactly when
  a frame matches. Otherwise the answer is 404. A `time` or `z` text is read
  as an integer exactly when it is that integer's decimal text, possibly with
  leading zeros (and `-0` for zero), and it is read as that integer.
- Routing sends each of the three paths to its handler and every other path to
  static serving.

Duplicate `(Time, Focal)` rows are not merged. The code appends every row's
focal value to its time's list (server.py:60), so duplicates stay in the answer.
The model does the same.

## Model

| member | source | states |
|---|---|---|
| `Table.SelectWells` | server.py:30-31 | the well list is strictly ascending in BINARY text order and holds a well exactly when some frame has it |
| `Table.SelectTimelineRows` | server.py:51-52 | every selected row has time >= 0 and focal in [-100, 100]; a `(time, focal)` row is selected exactly when some frame of well `id` inside that band has those coordinates |
| `Table.SelectTimelineRowsCount` | server.py:51-52 | a `(time, focal)` row is selected once for every frame of well `id` inside the band with those coordinates, so duplicates are neither merged nor dropped |
| `Table.SelectImage` | server.py:90-91 | the row found matches the requested well, time and focal exactly and is in the table; none is found exactly when no frame matches |
| `Params.ParseInt` | server.py:90 | a `time` or `z` text is read as an integer exactly when it is an optional minus sign followed by one or more digits, and the sign of the value follows the sign of the text |
| `Params.ParseShowInt` | server.py:90 | the decimal text of every integer is read back as that integer |
| `Params.ParsedIsDecimalText` | server.py:90 | every text that is read as an integer is that integer's decimal text after some leading zeros, with a minus sign only for a value <= 0 |
| `Params.DecimalTextIsParsed` | server.py:90 | an integer's decimal text with any number of leading zeros, and `-0…0` for zero, is read as that integer |
| `Params.ParseIntExact` | server.py:90 | a text is read as the integer `v` if and only if it is `v`'s decimal text with optional leading zeros |
| `Params.CanonicalDigits` | server.py:90 | a digit string without a leading zero is the canonical decimal text of its value |
| `Params.LeadingZerosValue` | server.py:90 | leading zeros do not change the value of a digit string |
| `Params.Param` | server.py:42 | `query.get(key, [None])[0]` is absent exactly when the key is not in the query, and otherwise is the key's first value |
| `Params.Present` | server.py:43 | a parameter counts as given exactly when it is neither absent nor the empty string, as Python's truth test on it decides |
| `Sorting.Sort` | server.py:68 | `sorted` returns an ascending rearrangement of its argument, with the same elements counted with multiplicity |
| `Sorting.SortedUnique` | server.py:65-68 | two ascending sequences with the same multiset of elements are equal, so the sorted output does not depend on the input order |
| `Sorting.StrictlyAscendingUnique` | server.py:65 | two strictly ascending sequences with the same elements are equal, so the sorted keys of a dictionary are determined by its key set |
| `TextOrder.InsertDistinct` | server.py:30 | adding a well to an ascending duplicate-free list keeps it ascending and duplicate-free and adds exactly that well |
| `TextOrder.StrictlyAscendingUnique` | server.py:30 | two strictly ascending lists of the same strings are equal |
| `Timeline.FocalsAtCount` | server.py:57-60 | a focal value occurs in a time's group exactly as many times as the row `(time, focal)` occurs among the rows |
| `Timeline.FocalsAtNonEmpty` | server.py:58-60 | every time that occurs in the rows has at least one focal value |
| `Timeline.GroupByTime` | server.py:56-60 | the dictionary's keys have no duplicates and are exactly the times of the rows, and each key maps to the focal values of that time in row order |
| `Timeline.CollectEntries` | server.py:64-69 | the entries come in strictly ascending time order, one for each key; each entry's focals are sorted and are a rearrangement of that key's group |
| `Timeline.BuildTimeline` | server.py:55-69 | the result is a timeline of the rows: strictly ascending times, exactly the rows' times, sorted focals equal as a multiset to the rows' focals at each time, and no empty entry |
| `Timeline.TimelineOrderIndependent` | server.py:65-68 | two timelines of rearrangements of the same rows are equal, so the result depends only on the multiset of rows |
| `Timeline.TimelineOfRearrangement` | server.py:57-68 | a timeline of some rows is also a timeline of any rearrangement of them |
| `Timeline.TimelineCoversRows` | server.py:57-60 | every focal listed under a time comes from a row with that time and focal, and every row is listed under its time |
| `Server.Route` | server.py:17-24 | exactly `/api/embryos`, `/api/timeline` and `/image` go to their handlers, and every other path goes to static serving |
| `Server.HandleEmbryos` | server.py:26-39 | a database error gives 500 with its message; otherwise 200 with the strictly ascending list of exactly the table's wells |
| `Server.EmbryosListCanonical` | server.py:30-31 | any strictly ascending list of exactly the table's wells is the answer given |
| `Server.HandleTimeline` | server.py:41-76 | a missing or empty `id` gives 400 "Missing id parameter" whatever the database is; otherwise a database error gives 500; otherwise 200 with a timeline of the selected rows |
| `Server.TimelineResponseContents` | server.py:51-69 | every listed focal belongs to a frame of the requested well with time >= 0 and focal in [-100, 100], every such frame is listed under its time, and each focal value occurs under a time exactly as many times as there are such frames at that time and focal plane |
| `Server.TimelineResponseUnique` | server.py:51-69 | the timeline answer is determined by the multiset of selected rows, so a repeated request gets the same answer |
| `Server.HasImageParameters` | server.py:83 | the image request has its parameters exactly when each of `id`, `time` and `z` is present |
| `Server.HandleImage` | server.py:78-102 | any of `id`, `time`, `z` missing or empty gives 400 "Missing parameters"; otherwise a database error gives 500; otherwise 200 with the bytes of a matching frame exactly when one matches, else 404 "Image not found" |
| `Server.ImageByCoordinates` | server.py:90-98 | when coordinates identify at most one frame, requesting a frame by its decimal coordinates returns exactly its bytes |
| `Server.DoGet` | server.py:12-24 | each of the three paths is answered by its handler, and a request is handed to static serving exactly when its path is none of them |
| `Scenarios.EmbryosExample` | server.py:30-37 | wells B2, A1, A1 in the table are listed as ["A1", "B2"] |
| `Scenarios.TimelineExample` | server.py:55-69 | rows (0, -5), (0, 5), (1, 0), in any order, give [{0, [-5, 5]}, {1, [0]}] |
| `Scenarios.TimelineRequestExample` | server.py:41-69 | the timeline request for A1 over frames at (0, -5), (0, 5), (1, 0) is answered 200 with [{0, [-5, 5]}, {1, [0]}] |
| `Scenarios.TimelineMissingIdExample` | server.py:42-45 | a timeline request without `id` gives 400 "Missing id parameter" |
| `Scenarios.ImageNotFoundExample` | server.py:90-100 | a request for (A1, 9, 0) against a table without that frame gives 404 "Image not found" |
| `Scenarios.ImageFoundExample` | server.py:90-98 | a request for (A1, 0, 0) gives 200 with that frame's bytes |

## Left out

- The HTTP server, socket binding, thread-per-request dispatch and `serve_forever` (server.py:104-116) are left out. They are I/O and concurrency.
- The `PORT` environment variable (server.py:108-109) is left out. It is process configuration.
- URL splitting and query-string decoding by `urlparse` and `parse_qs` (server.py:13-15) are left out. The model takes the path and the decoded query map as inputs. `parse_qs` drops blank values, so `id=` arrives as a missing key. The model treats a missing key and an empty value the same way, as the code does.
- Opening SQLite and running SQL (server.py:28-32, 48-53, 88-92) are replaced by functions over a sequence of frames. A failure to open or query the database is the opaque `Broken(message)` case, answered with 500 and the message (server.py:38-39, 75-76, 101-102). Other exceptions are not modelled.
- JSON encoding, response headers and `wfile.write` (server.py:34-37, 71-74, 95-98) are left out. A response is a status with a structured body.
- Static file serving through `super().do_GET()` (server.py:24) is left out. The model only records that the request goes to static serving.
- Table.SelectTimelineRows: does not model the `ORDER BY Time, Focal` of server.py:51. The rows come in table order instead. `Timeline.TimelineOrderIndependent` shows that the timeline answer does not depend on row order.
- Table.SelectImage: returns the first matching frame in table order. Without `ORDER BY`, the row SQLite returns is unspecified. The contract and everything proved from it only say "some matching row".
- Params.ParseInt: reads `time` and `z` strictly: an optional `-` followed by one or more digits. SQLite's looser comparison of text with an INTEGER column is not modelled. It also accepts forms such as `+5` and `5.0`. Any text this parser rejects matches no frame and gives 404.
- Integers are unbounded. SQLite's 64-bit INTEGER range is not modelled.
- A NULL `Image` value is not modelled: every frame has a byte sequence. An empty byte sequence still gives 200, as it does in the code.
