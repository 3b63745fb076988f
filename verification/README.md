# Rally data source: query resolution and row projection

A Dafny model of the `DataSource` class of a Grafana data-source plugin
for the Rally agile-tracking service (`src/datasource.ts`). Given a query
with an optional project name, story id and defect id, the data source
picks one of four fetchers by a fixed precedence (project listing, one
story, one defect, or the in-progress stories and defects), calls the
Rally web service through the plugin's `/rally` route, and appends one row
per returned record to a frame whose fields the fetcher declares up front.
A health check calls `/subscription` and reports success or the service's
status text.

Files:

- `wrappers.dfy` — `Option`, for the optional query fields and for NaN.
- `js_builtins.dfy` — the JavaScript built-ins the code relies on:
  `split('/')` and `pop()`, `parseInt(s, 10)` after section 19.2.5 of the
  ECMAScript Language Specification, and the decimal rendering of an
  integral `number` in a template literal.
- `frames.dfy` — a stand-in for `MutableDataFrame`: typed fields plus rows,
  with the well-formedness invariant (one value per field, of the field's
  type).
- `datasource.dfy` — `Query`, `Record`, `Response`, the gateway as a
  function parameter, `Resolve` (the dispatch of `doRequest`), the schemas
  and extractors, `fetchEntities`, the four fetchers, `query`, the
  in-progress filter and `testDatasource`.
- `properties.dfy` — lemmas relating these: precedence, the content and
  order of every frame's rows, the echoed id column, id parsing, the
  filter's lack of escaping, and the health check's message.

The HTTP gateway is abstracted as a total function from a resource path to
an already-decoded response `{ok, statusText, results}`. The fetches are
modelled as completing one after the other, stories before defects.

Behaviour of the code that the model keeps:

- The in-progress filter and its sort order are built but never sent:
  `fetchEntities` calls `callRallyAPI(path)` without the parameters
  (src/datasource.ts:118, 125). The in-progress frame therefore lists
  every story and every defect the service returns for the bare resource,
  and does not depend on the project (`InProgressIgnoresProject`).
- The project name goes into the filter verbatim; nothing is escaped.
- A failed call is only logged; no failure is recorded in the frame.
- Frames carry no `refId`: the code never sets one.

Determinism (the same query against the same service gives the same frame)
holds by construction: every operation is a function.

## Model

| member | source | states |
|---|---|---|
| DataSource.Resolve | src/datasource.ts:33-43 | the first of "project absent or empty", "story id truthy", "defect id truthy" that holds picks the fetcher, otherwise in-progress; each mode holds exactly when its condition does, and carries the query's own id or project |
| DataSourceProperties.MissingProjectListsProjects | src/datasource.ts:34-35 | an absent or empty project always gives the project listing, whatever story and defect ids are set |
| DataSourceProperties.ZeroStoryIdFallsThrough | src/datasource.ts:36-41 | with a project set, a story id of 0 counts as absent: the defect id, or else the in-progress listing, decides |
| DataSourceProperties.PrecedenceExamples | src/datasource.ts:33-43 | pinned cases: an empty project with both ids set lists projects; 0 ids fall through |
| DataSource.Extract | src/datasource.ts:53-113 | every extractor's row fits its frame's fields: 3 values for story/defect, 4 for in-progress, 2 for projects, each of the declared type |
| DataSource.AppendRows | src/datasource.ts:128-130 | appending rows one by one keeps the fields and the existing rows and adds the new rows after them, in order; the result is well formed exactly when the frame was and every new row fits its fields |
| DataSource.FetchEntities | src/datasource.ts:118-134 | when the call is ok, the frame gains one extracted row per result record, in record order, after the rows it had; when it is not, the frame is unchanged; a well-formed frame with the extractor's fields stays well formed |
| DataSource.DoRequest | src/datasource.ts:33-43 | every frame returned is well formed and carries the fields of the fetcher its query resolves to: (name, id) for projects, (key, name, id) for a story or defect, (key, name, id, type) for in-progress; its rows are, per mode, the rows of the `/project` records, of the records of `/hierarchicalrequirement/<storyId>` or `/defect/<defectId>`, or the story rows followed by the defect rows |
| DataSource.FetchStory | src/datasource.ts:45-56 | the frame has the (key, name, id) fields, is well formed, and holds one row per record delivered for `/hierarchicalrequirement/<storyId>`, in order; EchoedRowCells gives each row's cells |
| DataSource.FetchDefect | src/datasource.ts:58-69 | the frame has the (key, name, id) fields, is well formed, and holds one row per record delivered for `/defect/<defectId>`, in order; EchoedRowCells gives each row's cells |
| DataSource.FetchInProgressArtifacts | src/datasource.ts:71-104 | the frame has the four in-progress fields, is well formed, and holds the delivered stories' rows followed by the delivered defects' rows; a failed call adds nothing and leaves the other's rows; InProgressRowCells gives each row's cells |
| DataSource.FetchProjects | src/datasource.ts:106-116 | the frame has the (name, id) fields, is well formed, and holds one row per record delivered for `/project`, in order; ProjectFrameRows gives each row's cells |
| DataSource.EntityPath | src/datasource.ts:54 | the path of a story or defect is exactly its resource, then `/`, then the decimal rendering of the id |
| DataSource.RefId | src/datasource.ts:90 | the id read from a reference is a number or NaN, the only two outcomes of `parseInt`; which one is stated by RefIdOfSegment, RefIdOfTrailingNumber and RefIdOfTrailingSlash |
| DataSourceProperties.EchoedRowCells | src/datasource.ts:53 | each row of a story or defect frame is the record's `FormattedID`, its `_refObjectName`, then the queried id, one row per delivered record |
| DataSourceProperties.EchoedIdColumn | src/datasource.ts:53-54 | a story or defect frame's `id` column repeats the queried id on every row, whatever the records hold |
| DataSourceProperties.StoryFrameEchoesStoryId | src/datasource.ts:45-56 | a story query's frame holds one row per delivered record of `/hierarchicalrequirement/<id>` and its `id` column is the query's storyId |
| DataSourceProperties.DefectFrameEchoesDefectId | src/datasource.ts:58-69 | a defect query's frame holds one row per delivered record of `/defect/<id>` and its `id` column is the query's defectId |
| DataSourceProperties.InProgressRowCells | src/datasource.ts:87-101 | an in-progress frame has one row per delivered story, then one per delivered defect; a story row is its `FormattedID`, `_refObjectName`, the id `parseInt` reads from the last segment of its `_ref`, and `userstory`; a defect row likewise ends in `defect` |
| DataSourceProperties.InProgressIgnoresProject | src/datasource.ts:118-125 | because the filter parameters are never handed to the gateway, the in-progress frame is the same for every project |
| DataSourceProperties.ProjectFrameRows | src/datasource.ts:106-116 | a project frame has the fields (name, id) and one (name, parsed reference id) row per delivered record; an empty result gives no rows |
| DataSourceProperties.RefIdOfTrailingNumber | src/datasource.ts:90 | a reference whose last `/`-segment starts with an integer yields that integer, whatever precedes the last `/` |
| DataSourceProperties.RefIdOfSegment | src/datasource.ts:98 | the id of a reference depends only on the text after its last `/` |
| DataSourceProperties.RefIdExample | src/datasource.ts:113 | `.../project/123` yields 123 |
| DataSourceProperties.RefIdOfTrailingSlash | src/datasource.ts:113 | a reference ending in `/` yields NaN |
| DataSourceProperties.EntityPathEndsWithId | src/datasource.ts:54 | the path built for a story or defect id ends in a segment that parses back to that id |
| JsBuiltins.Split | src/datasource.ts:90 | `split` always gives at least one piece, so `pop()` always has a last piece to return |
| JsBuiltins.LastSegment | src/datasource.ts:90 | the model of `split('/').pop()`; LastSegmentIsTextAfterLastSlash and LastSegmentAfterSlash state what it returns |
| JsBuiltins.SplitJoinsBack | src/datasource.ts:90 | no piece of `split` holds the separator, and joining the pieces with it gives back the input |
| JsBuiltins.SplitJoin | src/datasource.ts:98 | splitting a join of separator-free pieces gives the pieces back |
| JsBuiltins.LastSegmentIsTextAfterLastSlash | src/datasource.ts:113 | `split('/').pop()` is the text after the last `/`: slash-free, a suffix of the input, and either all of it or preceded by `/` |
| JsBuiltins.ParseInt | src/datasource.ts:90 | the model of `parseInt(s, 10)`; ParseIntOfSignedDigits (a digit run after white space and an optional sign) and ParseIntWithoutLeadingDigits (no digit there) together state what it returns for every string |
| JsBuiltins.ParseIntOfSignedDigits | src/datasource.ts:90 | white space, then an optional `+` or `-`, then a non-empty digit run (leading zeros allowed), then text not starting with a digit, reads as the run's value, negated after `-` |
| JsBuiltins.ParseSignedOfSignedDigits | src/datasource.ts:90 | after the white space, a `-` negates the digit run's value and a `+` or no sign keeps it |
| JsBuiltins.ParseIntWithoutLeadingDigits | src/datasource.ts:90 | when no digit follows the white space and the optional sign, the result is NaN, whatever digits come later |
| JsBuiltins.ParseIntOfIntToString | src/datasource.ts:90 | `parseInt(_, 10)` reads back any integer's decimal rendering, past leading white space and before any non-digit text |
| JsBuiltins.TrimStartIsSuffix | src/datasource.ts:90 | the white-space trimming `parseInt` starts with removes a prefix made only of white space and leaves text that does not start with white space |
| JsBuiltins.DigitPrefixIsLongestRun | src/datasource.ts:90 | the digits `parseInt` reads are a prefix of the text and are followed by a non-digit or by nothing |
| JsBuiltins.ParseIntWithoutDigits | src/datasource.ts:98 | a string without digits parses to NaN |
| JsBuiltins.IntToString | src/datasource.ts:54 | the rendering of an id is never empty and starts with `-` exactly when the id is negative; ParseIntOfIntToString reads it back |
| JsBuiltins.NaturalDigits | src/datasource.ts:54 | the decimal rendering of an id is a non-empty digit string, without leading zero, whose value is the id |
| DataSource.InProgressParams | src/datasource.ts:72-77 | the parameters built for a project carry a query from which that project can be read back, ordered by `LastUpdateDate desc`, with `fetch` set |
| DataSource.InProgressFilter | src/datasource.ts:72 | the filter is the fixed head, the project name verbatim, then the fixed tail |
| DataSourceProperties.FilterProjectRoundTrip | src/datasource.ts:72 | the project name can be cut back out of its filter |
| DataSourceProperties.FilterInjective | src/datasource.ts:72 | distinct project names give distinct filters |
| DataSourceProperties.QuotedNameIsProjectIffQuoteFree | src/datasource.ts:72 | the name literal a reader of the filter sees is the project name if and only if the name holds no `"`; otherwise the name breaks out of its literal |
| DataSource.TestDatasource | src/datasource.ts:142-148 | status is `success` iff the `/subscription` call is ok, else `error`; the message is `Success` when ok, else `Error: ` followed by the status text |
| DataSourceProperties.HealthMessageRevealsOutcome | src/datasource.ts:145-146 | the message alone tells success from failure, and a failure's message ends with the service's status text |
| DataSource.RunQueries | src/datasource.ts:24-31 | one frame per target, each the target's own result, in target order |
| Frames.AppendRow | src/datasource.ts:129 | the row goes after the existing ones, and the frame stays well formed exactly when the row fits the fields |

## Left out

- HTTP, URL assembly and logging (`getBackendSrv().datasourceRequest`, `console.debug`, `console.error`): the gateway is a function parameter and log output is not modelled.
- Asynchrony: `Promise.all` in `query` and the un-awaited `fetchEntities` calls. No fetcher awaits `fetchEntities` (src/datasource.ts:54, 67, 93, 101, 114), and `fetchEntities` awaits the service before appending (line 125), so with a real round trip every fetcher, and `query` with it, returns a frame with no rows yet; the rows land later in that same frame object, and the in-progress stories and defects land in whichever order their two responses arrive. The model describes the frame once every call has completed, and fixes the in-progress order as stories before defects.
- Decoding of the response body: `data.QueryResult.Results` is taken as already decoded into records with `FormattedID`, `_refObjectName` and `_ref`; a body without that shape, or a single-object body, is not modelled.
- `InProgressParams` (the query/order/fetch parameters) is modelled as built, but no member sends it, as in the code.
- Non-integral and NaN ids: story and defect ids are modelled as integers; a fractional or NaN id, and the exponent form JavaScript uses for magnitudes of 10^21 and more, are not.
- DataSource.RefId: `parseInt` yields a double; the model keeps the exact integer, so rounding beyond 2^53 and the distinction of -0 from 0 are not modelled.
- The editor (`src/QueryEditor.tsx`), plugin registration (`src/module.ts`) and the configuration types are not part of this model; `src/types.ts` only shapes `Query`.
- `MutableDataFrame` internals: replaced by fields plus rows; a row of the wrong width is never appended by the code, so padding or truncation of such rows is not modelled.
