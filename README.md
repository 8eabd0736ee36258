# Downloader worker: from CSV header to table schema

This project models the part of the downloader service that can be stated as
logic rather than I/O. A worker leases a "download_file" job and probes the
first bytes of the remote CSV file. It reads the column names from the first
line. In a second request's callback, it builds a `CREATE TABLE IF NOT EXISTS`
statement with one `text` column per name and a `COPY ... FROM stdin`
statement. Nothing awaits that callback. The handler reports the job to the
job store as completed or failed when the `downloadAndSave` promise settles.
That promise waits only for the header probe (`readFirstChunk`), not for the
CREATE or the COPY.

Modules:

- `JsStrings` (js_strings.dfy): the JavaScript built-ins the header parser is
  made of. These are `split` on a one-character separator, `Array.prototype.join`
  and `trim` with ECMAScript's white-space and line-terminator set. Lemmas prove
  that split and join are inverses and characterise `trim` exactly.
- `Header` (header.dfy): `getFields`, i.e. the first line of the chunk,
  trimmed and split.
- `Queries` (queries.dfy): the column list, the CREATE TABLE statement and the
  COPY statement. A parser for both statement shapes is their inverse. Each
  function's contract states that its statement parses back to what it was
  built from.
- `Worker` (worker.dfy): `jobHandler` as a method. The outcomes of
  `downloadAndSave`, `boss.complete` and `boss.fail` are inputs. It returns the
  sequence of calls it makes and how its own promise settles.
- `Wrappers` (wrappers.dfy): `Option`.

The model follows what the code does where it departs from its own comments
(the comment on `downloadAndSave` at services/downloader/src/downloader.ts:46-49
promises a table named `tableName`, while line 64 writes `TEST2`):

- The table is always `TEST2`. The `tableName` argument of `downloadAndSave`
  is never used, and neither is the job's own `tableName`.
- The header is always split on `","`. `getFields` is called without a
  separator, and `jobHandler` never reads the job's separator.
- Field names go into the statement verbatim. Empty and repeated names are
  not rejected.
- A probe with no newline is not an error. The whole chunk is taken as the
  header line.

## Model

| member | source | states |
|---|---|---|
| `JsStrings.Split` | services/downloader/src/downloader.ts:13 | `split` on one character always yields at least one piece. The first piece is the text before the first separator, and no piece contains the separator. |
| `JsStrings.Join` | services/downloader/src/downloader.ts:63 | `join` of no parts is the empty string, and otherwise the join starts with the first part. |
| `JsStrings.JoinSplit` | services/downloader/src/downloader.ts:13 | Joining the pieces of a split with the separator gives back the original string. |
| `JsStrings.SplitJoin` | services/downloader/src/downloader.ts:13 | Splitting a join of one or more separator-free pieces gives back exactly those pieces, in order. |
| `JsStrings.Trim` | services/downloader/src/downloader.ts:13 | The result of `trim` is no longer than its input and has no white space or line terminator at either end. |
| `JsStrings.TrimDecompose` | services/downloader/src/downloader.ts:13 | Everything `trim` removes is white space or line terminators, and it only removes from the two ends. |
| `JsStrings.TrimExact` | services/downloader/src/downloader.ts:13 | Trimming a trimmed text that is wrapped in white space gives back that text. With TrimDecompose this determines `trim` completely. |
| `JsStrings.TrimmedUnchanged` | services/downloader/src/downloader.ts:13 | `trim` leaves a text with no white space at either end unchanged. |
| `Header.FirstLine` | services/downloader/src/downloader.ts:13 | `split("\n")[0]` is a newline-free prefix of the chunk that stops at the first newline. A chunk with no newline is its own first line. |
| `Header.FirstLineUnique` | services/downloader/src/downloader.ts:13 | Those properties determine the first line uniquely. |
| `Header.GetFields` | services/downloader/src/downloader.ts:7-14 | There is always at least one field. Joining the fields with the separator reproduces the trimmed first line exactly, and no field contains the separator. |
| `Header.BlankHeaderLine` | services/downloader/src/downloader.ts:13 | The fields are `[""]` if and only if the first line is empty or all white space. |
| `Header.OnlyFirstLineMatters` | services/downloader/src/downloader.ts:13 | Once the chunk contains a newline, appending anything to it leaves the fields unchanged. |
| `Header.TrimmedAtTheEnds` | services/downloader/src/downloader.ts:13 | Only the whole line is trimmed: the first field has no leading white space and the last field has no trailing white space. |
| `Header.CrLfDropped` | services/downloader/src/downloader.ts:13 | A header line ending in CR LF gives the same fields as the line without them. |
| `Header.HeaderRoundTrip` | services/downloader/src/downloader.ts:7-14 | A header built from fields without the separator or a newline, with no white space at its ends, is read back as exactly those fields, in order. Inner spaces, empty fields and duplicate names are kept. |
| `Header.CommaOnlyHeader` | services/downloader/src/downloader.ts:53 | The header is split on the default comma whatever separator the job carries. A chunk whose trimmed first line holds no comma therefore gives one single column, that whole trimmed line, whatever its line ending. |
| `Queries.ColumnEntries` | services/downloader/src/downloader.ts:62 | There is one entry per field, in header order. Each entry is the field verbatim followed by `" text"`. |
| `Queries.ColumnList` | services/downloader/src/downloader.ts:61-63 | The column list holds the entries joined by `", "`. When there is at least one field and no field holds a comma, parsing it back yields the fields exactly, in order. |
| `Queries.CreateTableParses` | services/downloader/src/downloader.ts:64 | Any text that parses as a column list, placed in `CREATE TABLE IF NOT EXISTS TEST2 (...)`, parses back as table `TEST2` with those same fields. |
| `Queries.CreateTableQuery` | services/downloader/src/downloader.ts:64 | The create statement is `CREATE TABLE IF NOT EXISTS TEST2 (<column list>)`. When there is at least one field and no field holds a comma, parsing it back yields table `TEST2` and exactly the given fields. |
| `Queries.CopyQuery` | services/downloader/src/downloader.ts:68 | The copy statement is the constant `COPY TEST2 FROM stdin WITH (format csv, HEADER true)`. It names table `TEST2` and depends on no input. |
| `Queries.DownloadStatements` | services/downloader/src/downloader.ts:51-68 | The statements `downloadAndSave` issues for a probed chunk create table `TEST2`, not the requested table name. Its columns are exactly the comma-split header fields. The copy loads `TEST2` whatever the header or table name is. |
| `Worker.JobHandler` | services/downloader/src/downloader.ts:83-94 | The download always runs first, with `job.id` as the table name. A download that never settles leaves the handler waiting forever, with no `complete` or `fail`. `complete(job.id)` is called exactly when the download resolved, right after it. `fail(job.id)` is called, last, exactly when the download or `complete` threw, so a successful run never calls `fail`. No other call is made. The handler rejects only if `fail` itself throws, and never settles exactly when the call it awaits never settles. |

## Left out

- `readFirstChunk`, the second `http.get`, `dbPool.connect`, `client.query`, the `COPY` stream, `res.pipe` and the `client.release` wiring (services/downloader/src/downloader.ts:16-40, 59-79): network and database I/O driven by stream events. How `downloadAndSave` settles is an input to `Worker.JobHandler`.
- `console.log` and `console.error` calls: logging only.
- What the SQL statements do once executed, including injection through unescaped field names: there is no SQL semantics here. The model only states the statement text.
- pg-boss job storage, queueing, leasing, retries and job states (`send`, `work`, `complete`, `fail`, `cancel`, `getJobById`): library code that is not part of this model. Only the calls the handler makes are recorded.
- `createBoss`, `main` and the `dbPool` set-up (services/downloader/src/downloader.ts:96-123): environment configuration and process start-up.
- interfaces/api/src/controllers/api.ts and interfaces/api/src/app.ts: HTTP endpoints that forward to pg-boss, plus configuration. The table-name expression there indexes an array with `[-1]`, which is `undefined` in JavaScript, so it throws before the missing-`fileUrl` check runs.
- `Buffer.prototype.toString`: the chunk is modelled as text that is already decoded. UTF-8 decoding and the replacement of invalid byte sequences are not modelled. Strings are sequences of code points, not UTF-16 code units.
- Header.GetFields: the separator is a single character. Empty and multi-character separators are not modelled, because the worker only ever calls `getFields` with the default `","`.
- Worker.JobHandler: the TypeScript non-null assertion `jobData.fileUrl!` has no run-time effect. A missing `fileUrl` is passed on as `None`, and whether the download then throws is the `download` input.
- Worker.JobHandler: whether `downloadAndSave` resolves, throws or never settles is an input, not derived from the stream code. As written, `readFirstChunk` resolves only on the request's `"end"` event (services/downloader/src/downloader.ts:36-39), which an HTTP client request does not emit, so once the server answers the download never settles. Errors thrown inside the stream callbacks (lines 76-79) never reach the `catch` at line 91 either. The model allows the `Pending` outcome but does not prove which outcome occurs.
