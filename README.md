# Message board core in Dafny

A model of the logic inside `main.py` of a small web message board. The board
serves static pages, accepts form-submitted messages over HTTP POST, keeps them
in one JSON file keyed by timestamp, and renders a listing on `GET /read`.
Once the file system, the clock and URL decoding are taken as parameters, four
pieces of that file can be stated and proved:

- **The message store** (`Storage.dfy`, class `Storage.MessageStore`). The
  backing file is the abstract state `FileState = Missing | Unreadable |
  Valid(messages)`. `Init`, `ReadMessages` and `WriteMessage` follow
  `Storage.init`, `read_messages` and `write_message`. Each is tied to a state
  function (`Initialized`, `Contents`, `Written`), and the lemmas beside them
  state what the source promises: init is idempotent, a read never fails, a
  write is a read-modify-write of the whole object that touches one key, and
  N writes under fresh timestamps add N records.
- **The form-body parser** (`Strings.dfy`, `FormBody.dfy`). Python's
  `str.split` is modelled and proved to be the unique inverse of `join`. Then
  `FormBody.Parse` follows the dict comprehension of `do_POST`. A body parses
  exactly when every `&`-separated segment holds exactly one `=`. Every field
  of the result is one of the body's segments, and a repeated key keeps its
  last value.
- **Request routing** (`Handler.dfy`, class `Handler.HttpHandler`).
  `RouteGet` is the if/elif chain of `do_GET` over the parsed path and an
  abstract `fileExists` predicate. `DoGet` reads the store only for `/read`.
  `DoPost` parses the body, writes once and redirects with 302 to `/`. When
  the parse fails, the store is untouched and no response is sent.
- **Date formatting** (`Digits.dfy`, `Dates.dfy`). `format_date` is
  `datetime.fromisoformat` followed by `strftime("%b %d, %Y %H:%M:%S")`, over
  the store's key shape `YYYY-MM-DD HH:MM:SS[.ffffff]`. The key the store
  writes is `str(datetime.now())` (`Dates.Key`), and `format_date` reads back
  every such key. The output copies the day, year and clock digits of the key,
  maps the month number to its abbreviation and drops the fraction.

Parameters standing for the environment:

- `writable` says whether opening the file for writing succeeds. When it does
  not, the `except` branches of `init` and `write_message` only log, so nothing
  changes.
- `timestamp` is the text `datetime.now()` would have given.
- `rawPath` and `path` are the request path and its `urlparse` path component.
- `body` is the POST body after UTF-8 decoding and `unquote_plus`.

Behaviour of `main.py` that the model keeps as written:

- A file that exists but cannot be loaded stores nothing. `json.load` raises
  inside the `try` at main.py:56, so the write at main.py:59 never happens.
  Only a missing file starts from `{}` (`Storage.WriteCases`,
  `Storage.UnreadableLosesWrites`).
- A malformed body makes the unpacking at main.py:96-98 raise `ValueError` out
  of `do_POST` before any response is sent. The model returns `NoResponse` and
  leaves the store untouched (`Handler.PostMalformed`).
- `send_static` opens `"." + self.path` at main.py:120, the raw path with any
  query string, while the existence check at main.py:88 used the parsed path
  (`Handler.GetResponse`, `Handler.StaticFileChecked`).
- Nothing in `main.py` calls `init`: the handler only constructs the store at
  main.py:67. `Init` is modelled as the operation it is.

## Model

| member | source | states |
|---|---|---|
| `Storage.MessageStore.constructor` | main.py:29-30 | constructing the store does not touch the file |
| `Storage.Initialized` | main.py:32-39 | definition of the state after `init`; properties in `Storage.InitKeepsExisting`, `Storage.InitCreatesEmpty`, `Storage.InitIdempotent` |
| `Storage.Contents` | main.py:41-49 | definition of what `read_messages` returns; properties in `Storage.ReadCases` |
| `Storage.Written` | main.py:51-63 | definition of the state after `write_message`; properties in `Storage.WriteCases`, `Storage.WriteThenRead`, `Storage.WriteFrame`, `Storage.WriteSize` |
| `Storage.WrittenAll` | main.py:51-63 | definition of a run of `write_message` calls; properties in `Storage.WritesAccumulate`, `Storage.WrittenAllKeys`, `Storage.UnreadableLosesWrites` |
| `Storage.MessageStore.Init` | main.py:32-39 | a missing file becomes an empty object when it can be written; any other state is kept |
| `Storage.InitKeepsExisting` | main.py:32-33 | init on an existing file, readable or not, leaves it unchanged |
| `Storage.InitCreatesEmpty` | main.py:33-37 | init on a missing file gives `Valid({})`, or leaves it missing when the write fails |
| `Storage.InitIdempotent` | main.py:32-37 | once init has found or created a file, a second init changes nothing |
| `Storage.MessageStore.ReadMessages` | main.py:41-49 | returns what the file holds, and `{}` on any failure; the state is unchanged |
| `Storage.ReadCases` | main.py:41-49 | a loadable file gives its object; a missing or unreadable file gives `{}`, the same as an empty store |
| `Storage.MessageStore.WriteMessage` | main.py:51-63 | the new state is the old object (or `{}` when missing) with the message under the timestamp; an unreadable file or a failed write changes nothing |
| `Storage.WriteCases` | main.py:52-63 | Missing becomes `Valid({ts: msg})`, `Valid(m)` becomes `Valid(m[ts := msg])`, Unreadable stays, and a failed write keeps any state |
| `Storage.WriteThenRead` | main.py:54-60 | after a write that goes through, reading gives the message under its timestamp, overwriting a colliding key |
| `Storage.WriteFrame` | main.py:56-60 | a write never changes the presence or the value of any other key |
| `Storage.WriteSize` | main.py:56-60 | a write adds at most one key, and exactly one under a fresh timestamp |
| `Storage.WritesAccumulate` | main.py:51-63 | N writes under distinct fresh timestamps add N records, each readable under its key, with every earlier record kept |
| `Storage.UnreadableLosesWrites` | main.py:54-63 | any run of writes on an unreadable file leaves it unreadable |
| `Storage.WrittenAllKeys` | main.py:56-58 | every key after a run of writes was stored before or is one of the written timestamps |
| `Strings.Split` | main.py:98 | `str.split` on one character: one part more than separators, no part holds the separator, and joining gives the text back |
| `Strings.SplitJoin` | main.py:98 | splitting the join of separator-free parts gives those parts back, so the split is the unique such decomposition |
| `FormBody.Unpack` | main.py:97-98 | `key, value = segment.split("=")` succeeds exactly when the segment holds one `=`, and then the segment is `key=value` |
| `FormBody.UnpackAll` | main.py:98 | all segments unpack exactly when each does, pair by pair in order |
| `FormBody.Collect` | main.py:96-99 | the dict holds exactly the keys of the pairs, each with the value of one of its pairs |
| `FormBody.CollectLastWins` | main.py:96-99 | a pair whose key does not occur later gives that key its value |
| `FormBody.Segments` | main.py:98 | definition: the `&`-split of the body; properties in `Strings.Split`, `FormBody.ParseSucceedsIff` |
| `FormBody.Parse` | main.py:96-99 | no key or value of a parsed record contains `=` or `&` |
| `FormBody.ParseSucceedsIff` | main.py:96-99 | the parse succeeds exactly when every `&`-separated segment holds exactly one `=` |
| `FormBody.ParseEmptyBody` | main.py:95-99 | the empty body fails |
| `FormBody.ParseEmptySegment` | main.py:96-99 | any empty segment makes the whole parse fail |
| `FormBody.ParseManyEquals` | main.py:96-99 | any segment with two or more `=` makes the whole parse fail |
| `FormBody.ParseNoEquals` | main.py:96-99 | a body without `=` never parses |
| `FormBody.ParseFieldsAreSegments` | main.py:96-99 | every field `k: v` of the result is literally the segment `k=v` of the body |
| `FormBody.ParseKeepsLast` | main.py:96-99 | a segment `k=v` with no later segment starting with `k=` gives `k` the value `v`, empty values included: the last occurrence wins |
| `FormBody.ParseTwoFields` | main.py:96-99 | `k1=v1&k2=v2` parses to those two fields, the second winning on a shared key |
| `FormBody.ParseSameKeyTwice` | main.py:96-99 | `k=v1&k=v2` keeps only `v2` |
| `FormBody.ParseRepeatedKey` | main.py:96-99 | `a=1&a=2` gives `{a: 2}` |
| `FormBody.ParseExample` | main.py:96-99 | `name=bob&text=hello` gives `{name: bob, text: hello}` |
| `FormBody.ParseDoubleAmpersand` | main.py:96-99 | `a=1&&b=2` fails |
| `FormBody.ParseDoubleEquals` | main.py:96-99 | `a=b=c` fails |
| `Dates.MonthAbbr` | main.py:13 | `%b` gives a three-letter month abbreviation |
| `Dates.Key` | main.py:57 | definition of `str(datetime)`; properties in `Dates.KeySlices`, `Dates.KeyRoundTrip` |
| `Dates.KeySlices` | main.py:57 | a key has 19 characters, or 26 with a fraction, with each field zero-padded at its fixed position |
| `Dates.KeyShape` | main.py:12 | definition of the key layout `fromisoformat` is modelled on; properties in `Dates.ParseKey`, `Dates.KeyRoundTrip` |
| `Dates.ParseKey` | main.py:12 | `fromisoformat` accepts a key only when it has the key layout and every field is in `datetime`'s range |
| `Dates.Strftime` | main.py:13 | definition of `strftime("%b %d, %Y %H:%M:%S")`; properties in `Dates.FormatDateText`, `Dates.KeyExample` |
| `Dates.FormatDate` | main.py:11-13 | definition of `format_date`; properties in `Dates.KeyRoundTrip`, `Dates.FormatDateText`, `Dates.FormatDropsFraction` |
| `Dates.KeyRoundTrip` | main.py:11-13 | `fromisoformat(str(dt)) == dt` for every valid date-time, so `format_date` accepts every key the store writes at line 57 |
| `Dates.FormatDateText` | main.py:11-13 | the output is the month abbreviation, the key's day digits, `, `, its year digits and its `HH:MM:SS`, all zero-padded as in the key |
| `Dates.FormatDropsFraction` | main.py:11-13 | a key with six fraction digits formats like the same key without them |
| `Dates.KeyExample` | main.py:11-13 | 2023-01-01 00:00:00 is stored as `2023-01-01 00:00:00` and shown as `Jan 01, 2023 00:00:00` |
| `Dates.FormatDateExample` | main.py:11-13 | `2023-01-01 00:00:00.000000` is shown as `Jan 01, 2023 00:00:00` |
| `Handler.HttpHandler.constructor` | main.py:66-67 | every handler works on the one shared store |
| `Handler.Tail` | main.py:88 | definition of `path[1:]`; properties in `Handler.StaticFileChecked` |
| `Handler.Reserved` | main.py:72-76 | definition of the three paths answered without the file system; properties in `Handler.RouteGetTable`, `Handler.ReservedIgnoresFiles` |
| `Handler.RouteGet` | main.py:72-91 | definition of the if/elif chain of `do_GET`; properties in `Handler.RouteGetTable`, `Handler.ReservedIgnoresFiles` |
| `Handler.GetResponse` | main.py:72-91 | definition of the response for each route, the static file opened as at main.py:120; properties in `Handler.GetStatus`, `Handler.OnlyListingReadsStore`, `Handler.StaticFileChecked` |
| `Handler.HttpHandler.DoGet` | main.py:69-91 | the response is the routed action for the parsed path, with the store read only for the listing |
| `Handler.RouteGetTable` | main.py:72-91 | each path gets exactly one route: `/`, `/message` and `/read` first, then an existing file `path[1:]`, then 404, each in both directions |
| `Handler.ReservedIgnoresFiles` | main.py:72-88 | the three exact paths are routed alike whatever files exist |
| `Handler.OnlyListingReadsStore` | main.py:72-91 | no response but the listing depends on the store |
| `Handler.GetStatus` | main.py:72-91 | a GET answers 404 exactly for the error page and 200 otherwise |
| `Handler.StaticFileChecked` | main.py:88-89 | for a path without a query, the static file sent is `./` plus the checked name, which exists |
| `Handler.NotFoundExample` | main.py:87-91 | `GET /does-not-exist` without such a file gives `error.html` with 404 |
| `Handler.ReadExample` | main.py:76-80 | `GET /read` renders the stored record, and its key is shown as `Jan 01, 2023 00:00:00` |
| `Handler.HttpHandler.DoPost` | main.py:93-103 | the response and the new store are those of `PostResult`: parse, then one write, then a 302 to `/`; the request path is never consulted |
| `Handler.PostResult` | main.py:93-103 | definition of `do_POST` on values; properties in `Handler.PostMalformed`, `Handler.PostRedirectsIffParsed`, `Handler.PostWritesOnce`, `Handler.PostStoreFault` |
| `Handler.PostMalformed` | main.py:95-100 | a body that does not parse leaves the store untouched and sends no response |
| `Handler.PostRedirectsIffParsed` | main.py:96-103 | the 302 to `/` is sent exactly when the body parses |
| `Handler.PostWritesOnce` | main.py:96-100 | a parsed body is written once, under the request's timestamp |
| `Handler.PostStoreFault` | main.py:100-103 | a storage fault is invisible: the redirect is sent and the file is unchanged |
| `Handler.PostThenRead` | main.py:93-103 | after a successful POST, reading the store gives the submitted record under its timestamp |
| `Handler.PostExample` | main.py:93-103 | `name=bob&text=hello` adds exactly that record, one more than before, and redirects |

## Left out

- HTTP server lifecycle, sockets, `send_response`/`send_header`/`wfile`, `run_http_server` and its interrupt handling (main.py:105-134): I/O plumbing. Responses are values of `Handler.Response`.
- The Jinja2 rendering of `read.html` (main.py:77-80): a foreign library. The model only records that the listing passes `read_messages()` to the template.
- `mimetypes.guess_type` and the content type of static files (main.py:112-121): a library call. The `text/plain` fallback is unreachable, because `guess_type` always returns a tuple.
- Reading the files that `send_html_file` and `send_static` send: only which file is sent, with which status, is modelled.
- `urllib.parse.urlparse`, `unquote_plus`, UTF-8 decoding and the `Content-Length` header: opaque library calls, given as inputs. A percent-encoded `&` or `=` is therefore already decoded when the body is split. A body that is not valid UTF-8 (main.py:95) or a request without a `Content-Length` header (main.py:94) raises before parsing, which is the same no-response, store-untouched outcome as a malformed body (`Handler.PostMalformed`).
- `datetime.now()` (main.py:57): nondeterministic, so the timestamp is a parameter.
- The store's path `./storage/data.json` and the JSON text itself (indentation, `ensure_ascii`, key order): the file is abstracted to `FileState`, and Dafny maps do not keep insertion order.
- JSON that loads but is not an object of string fields: `Unreadable` stands for every file that cannot be loaded as such an object. For a file holding, say, a JSON array, `read_messages` would return that array rather than `{}`.
- A write that fails half-way after `open(..., "w")` has truncated the file: the model treats a write as either completing or not starting.
- `fromisoformat` on other shapes than the store's key format, such as a `T` separator, time zones or fractions of other lengths. `Dates.ParseKey` returns None for them.
- `%b`: the model assumes the C locale.
- `%Y`: the model pads the year to four digits, which is what Python documents. Some C libraries print years below 1000 without padding; the store never writes such years.
- The `Vault` abstract base class (main.py:16-23): it has no behaviour.
- Concurrency between requests: `HTTPServer` is single-threaded, and no locking is used.
